/** TextEncoder and TextDecoder of the native host: UTF-16 code units to UTF-8 bytes and back.
  * The reference definitions are the byte grammar of section 4 of RFC 3629, its bit layout (section 3),
  * and the substitution of maximal subparts that the WHATWG Encoding Standard's decoder performs. */
module Utf8 {
  import opened Seqs

  type Byte = b: int | 0 <= b < 0x100
  type Unit = u: int | 0 <= u < 0x1_0000
  type Scalar = c: int | 0 <= c < 0xD800 || 0xE000 <= c < 0x11_0000

  const REPLACEMENT: Scalar := 0xFFFD

  // ---------------------------------------------------------------- UTF-16

  predicate High(u: Unit) { 0xD800 <= u <= 0xDBFF }

  predicate Low(u: Unit) { 0xDC00 <= u <= 0xDFFF }

  /** The one or two code units of a scalar value. */
  function UnitsOf(c: Scalar): (u: seq<Unit>)
  {
    if c < 0x1_0000 then [c] else [0xD800 + (c - 0x1_0000) / 0x400, 0xDC00 + (c - 0x1_0000) % 0x400]
  }

  function ToUtf16(cs: seq<Scalar>): seq<Unit>
  {
    if cs == [] then [] else UnitsOf(cs[0]) + ToUtf16(cs[1..])
  }

  /** The scalar value a surrogate pair stands for. */
  function Paired(high: Unit, low: Unit): (c: Scalar)
    requires High(high) && Low(low)
    ensures c >= 0x1_0000 && UnitsOf(c) == [high, low]
  {
    var h: int, l: int := high, low;
    0x1_0000 + (h - 0xD800) * 0x400 + (l - 0xDC00)
  }

  /** The scalar values of a string, a lone surrogate read as U+FFFD. */
  function Scalars(u: seq<Unit>): seq<Scalar>
  {
    if u == [] then []
    else if High(u[0]) && |u| > 1 && Low(u[1]) then
      [Paired(u[0], u[1])] + Scalars(u[2..])
    else if High(u[0]) || Low(u[0]) then [REPLACEMENT] + Scalars(u[1..])
    else [u[0] as Scalar] + Scalars(u[1..])
  }

  /** The unit at `i` is a surrogate that is not half of a pair. */
  predicate Lone(u: seq<Unit>, i: nat)
    requires i < |u|
  {
    || (High(u[i]) && !(i + 1 < |u| && Low(u[i + 1])))
    || (Low(u[i]) && !(i > 0 && High(u[i - 1])))
  }

  predicate WellFormedUtf16(u: seq<Unit>)
  {
    forall i :: 0 <= i < |u| ==> !Lone(u, i)
  }

  // ----------------------------------------------------------------- UTF-8

  /** The bytes of a scalar value: the table of section 3 of RFC 3629. */
  function BytesOf(c: Scalar): (b: seq<Byte>)
  {
    if c < 0x80 then [c]
    else if c < 0x800 then [0xC0 + c / 0x40, 0x80 + c % 0x40]
    else if c < 0x1_0000 then [0xE0 + c / 0x1000, 0x80 + c / 0x40 % 0x40, 0x80 + c % 0x40]
    else [0xF0 + c / 0x4_0000, 0x80 + c / 0x1000 % 0x40, 0x80 + c / 0x40 % 0x40, 0x80 + c % 0x40]
  }

  function ToUtf8(cs: seq<Scalar>): seq<Byte>
  {
    if cs == [] then [] else BytesOf(cs[0]) + ToUtf8(cs[1..])
  }

  predicate Tail(b: Byte) { 0x80 <= b <= 0xBF }

  /** UTF8-char of section 4 of RFC 3629, rule by rule. */
  predicate Utf8Char(s: seq<Byte>)
  {
    || (|s| == 1 && s[0] <= 0x7F)
    || (|s| == 2 && 0xC2 <= s[0] <= 0xDF && Tail(s[1]))
    || (|s| == 3 && s[0] == 0xE0 && 0xA0 <= s[1] <= 0xBF && Tail(s[2]))
    || (|s| == 3 && 0xE1 <= s[0] <= 0xEC && Tail(s[1]) && Tail(s[2]))
    || (|s| == 3 && s[0] == 0xED && 0x80 <= s[1] <= 0x9F && Tail(s[2]))
    || (|s| == 3 && 0xEE <= s[0] <= 0xEF && Tail(s[1]) && Tail(s[2]))
    || (|s| == 4 && s[0] == 0xF0 && 0x90 <= s[1] <= 0xBF && Tail(s[2]) && Tail(s[3]))
    || (|s| == 4 && 0xF1 <= s[0] <= 0xF3 && Tail(s[1]) && Tail(s[2]) && Tail(s[3]))
    || (|s| == 4 && s[0] == 0xF4 && 0x80 <= s[1] <= 0x8F && Tail(s[2]) && Tail(s[3]))
  }

  /** UTF8-octets of section 4 of RFC 3629: *( UTF8-char ). */
  ghost predicate WellFormed(s: seq<Byte>)
    decreases |s|
  {
    s == [] || exists n :: 0 < n <= |s| && Utf8Char(s[..n]) && WellFormed(s[n..])
  }

  /** The scalar value a UTF8-char stands for. */
  function ScalarOf(s: seq<Byte>): (c: Scalar)
    requires Utf8Char(s)
  {
    var lead: int := s[0];
    if |s| == 1 then lead
    else if |s| == 2 then (lead - 0xC0) * 0x40 + Low6(s[1])
    else if |s| == 3 then (lead - 0xE0) * 0x1000 + Low6(s[1]) * 0x40 + Low6(s[2])
    else (lead - 0xF0) * 0x4_0000 + Low6(s[1]) * 0x1000 + Low6(s[2]) * 0x40 + Low6(s[3])
  }

  /** The six payload bits of a continuation byte. */
  function Low6(b: Byte): (n: int)
    ensures 0 <= n < 0x40
    ensures Tail(b) ==> b as int == 0x80 + n
  {
    b % 0x40
  }

  /** A number is the sum of its base-64 digits, and only of those. */
  lemma SixBitDigits(d: int, c: int, b: int, a: int)
    requires 0 <= a < 0x40 && 0 <= b < 0x40 && 0 <= c < 0x40
    ensures var n := d * 0x4_0000 + c * 0x1000 + b * 0x40 + a;
            && n % 0x40 == a && n / 0x40 == d * 0x1000 + c * 0x40 + b
            && n / 0x40 % 0x40 == b && n / 0x1000 == d * 0x40 + c
            && n / 0x1000 % 0x40 == c && n / 0x4_0000 == d
  {
    var n := d * 0x4_0000 + c * 0x1000 + b * 0x40 + a;
    assert n / 0x40 == d * 0x1000 + c * 0x40 + b;
    assert n / 0x1000 == n / 0x40 / 0x40 == d * 0x40 + c;
    assert n / 0x4_0000 == n / 0x1000 / 0x40 == d;
  }

  lemma BytesOfDigits(c: Scalar, k3: int, k2: int, k1: int, k0: int)
    requires c == k3 * 0x4_0000 + k2 * 0x1000 + k1 * 0x40 + k0
    requires 0 <= k3 < 8 && 0 <= k2 < 0x40 && 0 <= k1 < 0x40 && 0 <= k0 < 0x40
    ensures BytesOf(c) ==
            if c < 0x80 then [c]
            else if c < 0x800 then [0xC0 + k1, 0x80 + k0]
            else if c < 0x1_0000 then [0xE0 + k2, 0x80 + k1, 0x80 + k0]
            else [0xF0 + k3, 0x80 + k2, 0x80 + k1, 0x80 + k0]
  {
    SixBitDigits(k3, k2, k1, k0);
  }

  lemma BytesOfIsChar(c: Scalar)
    ensures Utf8Char(BytesOf(c)) && ScalarOf(BytesOf(c)) == c
  {
    hide BytesOf;
    var n: int := c;
    var q := n / 0x40;
    BytesOfDigits(c, q / 0x40 / 0x40, q / 0x40 % 0x40, q % 0x40, n % 0x40);
  }

  lemma ScalarOfBytes(s: seq<Byte>)
    requires Utf8Char(s)
    ensures BytesOf(ScalarOf(s)) == s
  {
    var lead: int := s[0];
    if |s| == 2 {
      SixBitDigits(0, 0, lead - 0xC0, Low6(s[1]));
    } else if |s| == 3 {
      SixBitDigits(0, lead - 0xE0, Low6(s[1]), Low6(s[2]));
    } else if |s| == 4 {
      SixBitDigits(lead - 0xF0, Low6(s[1]), Low6(s[2]), Low6(s[3]));
    }
  }

  /** The grammar and the bit layout describe the same sequences, one per scalar value. */
  lemma CharsAreScalars(s: seq<Byte>)
    ensures Utf8Char(s) <==> exists c: Scalar :: s == BytesOf(c)
  {
    if Utf8Char(s) {
      ScalarOfBytes(s);
    }
    forall c: Scalar | s == BytesOf(c)
      ensures Utf8Char(s)
    {
      BytesOfIsChar(c);
    }
  }

  // ------------------------------------------------------- malformed input

  /** How many continuation bytes a lead byte asks for. */
  function Need(lead: Byte): (n: nat)
    ensures n <= 3
  {
    if 0xC2 <= lead <= 0xDF then 1 else if 0xE0 <= lead <= 0xEF then 2 else if 0xF0 <= lead <= 0xF4 then 3 else 0
  }

  predicate Starts(lead: Byte) { lead <= 0x7F || Need(lead) > 0 }

  function Lower(lead: Byte): Byte { if lead == 0xE0 then 0xA0 else if lead == 0xF0 then 0x90 else 0x80 }

  function Upper(lead: Byte): Byte { if lead == 0xED then 0x9F else if lead == 0xF4 then 0x8F else 0xBF }

  /** The byte at `k` may continue the sequence that starts at 0. */
  predicate Continues(s: seq<Byte>, k: nat)
    requires 0 < k < |s|
  {
    if k == 1 then Lower(s[0]) <= s[1] <= Upper(s[0]) else Tail(s[k])
  }

  /** The end of the longest acceptable sequence that starts at 0, its first `k` bytes known to be acceptable. */
  function ExtentFrom(s: seq<Byte>, k: nat): (n: nat)
    requires 0 < k <= |s| && k <= Need(s[0]) + 1
    requires forall j :: 0 < j < k ==> Continues(s, j)
    ensures k <= n <= |s| && n <= Need(s[0]) + 1
    ensures forall j :: 0 < j < n ==> Continues(s, j)
    ensures n == |s| || n == Need(s[0]) + 1 || !Continues(s, n)
    decreases |s| - k
  {
    if k == |s| || k == Need(s[0]) + 1 || !Continues(s, k) then k else ExtentFrom(s, k + 1)
  }

  function Extent(s: seq<Byte>): (n: nat)
    requires s != []
    ensures 0 < n <= |s|
  {
    ExtentFrom(s, 1)
  }

  predicate Complete(s: seq<Byte>)
    requires s != []
  {
    Starts(s[0]) && Extent(s) == Need(s[0]) + 1
  }

  lemma ExtentIs(s: seq<Byte>, n: nat)
    requires 0 < n <= |s| && n <= Need(s[0]) + 1
    requires forall j :: 0 < j < n ==> Continues(s, j)
    requires n == |s| || n == Need(s[0]) + 1 || !Continues(s, n)
    ensures Extent(s) == n
  {
    var m := Extent(s);
    if m < n {
      assert Continues(s, m);
    }
  }

  /** A UTF8-char starts here exactly when the longest acceptable sequence is complete, and it is that sequence. */
  lemma CompleteIsChar(s: seq<Byte>, n: nat)
    requires 0 < n <= |s|
    ensures Utf8Char(s[..n]) <==> Complete(s) && n == Extent(s)
  {
    var p := s[..n];
    if Utf8Char(p) {
      assert n == Need(s[0]) + 1;
      forall j | 0 < j < n
        ensures Continues(s, j)
      {
        assert s[j] == p[j];
      }
      ExtentIs(s, n);
    }
    if Complete(s) && n == Extent(s) {
      forall j | 0 < j < n
        ensures p[j] == s[j] && Continues(s, j)
      {
      }
      assert n >= 2 ==> Continues(s, 1);
      assert n >= 3 ==> Continues(s, 2);
      assert n >= 4 ==> Continues(s, 3);
    }
  }

  /** The decoding of any byte string: each UTF8-char stands for its scalar value, each maximal subpart for U+FFFD. */
  function Lossy(s: seq<Byte>): seq<Scalar>
    decreases |s|
  {
    if s == [] then []
    else
      var n := Extent(s);
      var c: Scalar := if Complete(s) then CompleteIsChar(s, n); ScalarOf(s[..n]) else REPLACEMENT;
      [c] + Lossy(s[n..])
  }

  /** A proper prefix of some UTF8-char. */
  ghost predicate Partial(p: seq<Byte>)
  {
    exists c: Scalar :: |p| < |BytesOf(c)| && p == BytesOf(c)[..|p|]
  }

  /** What one U+FFFD replaces is the maximal subpart of an ill-formed sequence (D93b of the Unicode
    * Standard): the longest prefix that some UTF8-char also starts with, or else one byte. */
  lemma ReplacedSubpartIsMaximal(s: seq<Byte>)
    requires s != [] && !Complete(s)
    ensures forall n :: 0 < n <= |s| ==> !Utf8Char(s[..n])
    ensures Partial(s[..Extent(s)]) || (Extent(s) == 1 && !Starts(s[0]))
    ensures forall n :: Extent(s) < n <= |s| ==> !Partial(s[..n])
    ensures Lossy(s) == [0xFFFD] + Lossy(s[Extent(s)..])
  {
    forall n | 0 < n <= |s|
      ensures !Utf8Char(s[..n])
    {
      CompleteIsChar(s, n);
    }
    var m := Extent(s);
    if Starts(s[0]) {
      forall j | 0 < j < m
        ensures Continues(s[..m], j)
      {
        assert Continues(s, j);
      }
      PartialExtends(s[..m]);
    }
    forall n | m < n <= |s|
      ensures !Partial(s[..n])
    {
      if Partial(s[..n]) {
        PartialReaches(s, n);
      }
    }
  }

  lemma PartialReaches(s: seq<Byte>, n: nat)
    requires 0 < n <= |s| && Partial(s[..n])
    ensures Extent(s) >= n
  {
    var c: Scalar :| |s[..n]| < |BytesOf(c)| && s[..n] == BytesOf(c)[..n];
    var b := BytesOf(c);
    BytesOfIsChar(c);
    CompleteIsChar(b, |b|);
    assert b[..|b|] == b;
    forall j | 0 <= j < n
      ensures s[j] == b[j] && (j > 0 ==> Continues(s, j))
    {
      assert s[j] == s[..n][j] == b[..n][j] == b[j];
      assert s[0] == s[..n][0] == b[..n][0] == b[0];
      assert j > 0 ==> Continues(b, j);
    }
  }

  lemma PartialExtends(p: seq<Byte>)
    requires p != [] && Starts(p[0]) && |p| <= Need(p[0])
    requires forall j :: 0 < j < |p| ==> Continues(p, j)
    ensures Partial(p)
  {
    var second: Byte := if |p| > 1 then p[1] else Lower(p[0]);
    var third: Byte := if |p| > 2 then p[2] else 0x80;
    var whole := [p[0], second, third, 0x80][..Need(p[0]) + 1];
    assert |p| > 1 ==> Continues(p, 1);
    assert |p| > 2 ==> Continues(p, 2);
    assert Utf8Char(whole);
    ScalarOfBytes(whole);
    assert p == BytesOf(ScalarOf(whole))[..|p|];
  }

  // ------------------------------------------------------------ properties

  lemma WellFormedStep(s: seq<Byte>)
    requires s != []
    ensures WellFormed(s) <==> Complete(s) && WellFormed(s[Extent(s)..])
  {
    if WellFormed(s) {
      var n :| 0 < n <= |s| && Utf8Char(s[..n]) && WellFormed(s[n..]);
      CompleteIsChar(s, n);
    }
    if Complete(s) {
      CompleteIsChar(s, Extent(s));
    }
  }

  lemma Nothing()
    ensures WellFormed([]) && Lossy([]) == [] && ToUtf8([]) == [] && ToUtf16([]) == []
  {
  }

  lemma LossyStep(s: seq<Byte>)
    requires s != [] && Complete(s)
    ensures Utf8Char(s[..Extent(s)]) && Lossy(s) == [ScalarOf(s[..Extent(s)])] + Lossy(s[Extent(s)..])
  {
    CompleteIsChar(s, Extent(s));
  }

  lemma ToUtf8Step(c: Scalar, cs: seq<Scalar>)
    ensures ToUtf8([c] + cs) == BytesOf(c) + ToUtf8(cs)
  {
    assert ([c] + cs)[1..] == cs;
  }

  /** On well-formed bytes the decoding is exact: encoding it gives the bytes back. */
  lemma {:induction false} WellFormedRoundTrip(s: seq<Byte>)
    requires WellFormed(s)
    ensures ToUtf8(Lossy(s)) == s
    decreases |s|
  {
    hide BytesOf, ScalarOf, Utf8Char, WellFormed, Extent, Complete, Lossy, ToUtf8;
    if s == [] {
      Nothing();
    } else {
      WellFormedStep(s);
      var n := Extent(s);
      LossyStep(s);
      ScalarOfBytes(s[..n]);
      WellFormedRoundTrip(s[n..]);
      ToUtf8Step(ScalarOf(s[..n]), Lossy(s[n..]));
      assert s[..n] + s[n..] == s;
    }
  }

  lemma {:induction false} Utf8IsWellFormed(cs: seq<Scalar>)
    ensures WellFormed(ToUtf8(cs)) && Lossy(ToUtf8(cs)) == cs
  {
    hide BytesOf, ScalarOf;
    if cs != [] {
      var b, rest := BytesOf(cs[0]), ToUtf8(cs[1..]);
      BytesOfIsChar(cs[0]);
      Utf8IsWellFormed(cs[1..]);
      var s := b + rest;
      assert s[..|b|] == b && s[|b|..] == rest;
      CompleteIsChar(s, |b|);
      assert Lossy(s) == [ScalarOf(b)] + Lossy(rest);
    }
  }

  /** The well-formed byte strings are exactly the encodings of scalar value strings. */
  lemma WellFormedIsEncoded(s: seq<Byte>)
    ensures WellFormed(s) <==> ToUtf8(Lossy(s)) == s
  {
    if WellFormed(s) {
      WellFormedRoundTrip(s);
    }
    Utf8IsWellFormed(Lossy(s));
  }

  lemma {:induction false} Utf16IsWellFormed(cs: seq<Scalar>)
    ensures WellFormedUtf16(ToUtf16(cs))
    ensures cs != [] ==> ToUtf16(cs) != [] && !Low(ToUtf16(cs)[0])
  {
    if cs != [] {
      Utf16IsWellFormed(cs[1..]);
      var head, rest := UnitsOf(cs[0]), ToUtf16(cs[1..]);
      var u := head + rest;
      forall i | 0 <= i < |u|
        ensures !Lone(u, i)
      {
        if i >= |head| {
          assert !Lone(rest, i - |head|);
        }
      }
    }
  }

  /** The string with each lone surrogate replaced by U+FFFD, unit by unit. */
  ghost function Mended(u: seq<Unit>): (m: seq<Unit>)
    ensures |m| == |u|
  {
    seq(|u|, i requires 0 <= i < |u| => if Lone(u, i) then REPLACEMENT as Unit else u[i])
  }

  /** Mending goes front to back: a pair, or one unit, and then the rest on its own. */
  lemma MendedStep(u: seq<Unit>)
    requires u != []
    ensures var n := if High(u[0]) && |u| > 1 && Low(u[1]) then 2 else 1;
            && Mended(u) == Mended(u)[..n] + Mended(u[n..])
            && Mended(u)[..n] == if n == 2 then u[..2]
                              else if High(u[0]) || Low(u[0]) then [REPLACEMENT as Unit] else [u[0]]
  {
    var n := if High(u[0]) && |u| > 1 && Low(u[1]) then 2 else 1;
    forall i | n <= i < |u|
      ensures Mended(u)[i] == Mended(u[n..])[i - n]
    {
      assert Lone(u[n..], i - n) == Lone(u, i);
    }
  }

  lemma ScalarsStep(u: seq<Unit>)
    requires u != []
    ensures var n := if High(u[0]) && |u| > 1 && Low(u[1]) then 2 else 1;
            ToUtf16(Scalars(u)) ==
            (if n == 2 then u[..2] else if High(u[0]) || Low(u[0]) then [REPLACEMENT as Unit] else [u[0]])
            + ToUtf16(Scalars(u[n..]))
  {
    var n := if High(u[0]) && |u| > 1 && Low(u[1]) then 2 else 1;
    assert Scalars(u)[1..] == Scalars(u[n..]);
    assert n == 2 ==> UnitsOf(Scalars(u)[0]) == u[..2];
  }

  /** Reading a string as scalar values and writing it back mends it. */
  lemma {:induction false} ScalarsReplaceLone(u: seq<Unit>)
    ensures ToUtf16(Scalars(u)) == Mended(u)
    decreases |u|
  {
    if u != [] {
      hide ToUtf16, Scalars, Mended;
      var n := if High(u[0]) && |u| > 1 && Low(u[1]) then 2 else 1;
      ScalarsReplaceLone(u[n..]);
      ScalarsStep(u);
      MendedStep(u);
    }
  }

  /** Decoding an encoded string, lossily, gives the string with each lone surrogate replaced by U+FFFD. */
  lemma EncodedStringDecodes(u: seq<Unit>)
    ensures WellFormed(ToUtf8(Scalars(u)))
    ensures ToUtf16(Lossy(ToUtf8(Scalars(u)))) == Mended(u)
    ensures WellFormedUtf16(u) <==> ToUtf16(Lossy(ToUtf8(Scalars(u)))) == u
  {
    Utf8IsWellFormed(Scalars(u));
    ScalarsReplaceLone(u);
    if Mended(u) == u {
      Utf16IsWellFormed(Scalars(u));
    }
    assert WellFormedUtf16(u) ==> Mended(u) == u;
  }

  /** Bytes decode to empty text only when there are none. */
  lemma OnlyEmptyDecodesEmpty(s: seq<Byte>)
    ensures ToUtf16(Lossy(s)) == [] <==> s == []
  {
    if s != [] {
      Utf16IsWellFormed(Lossy(s));
    }
  }

  lemma {:induction false} ScalarsOfUtf16(cs: seq<Scalar>)
    ensures Scalars(ToUtf16(cs)) == cs
  {
    if cs != [] {
      ScalarsOfUtf16(cs[1..]);
      Utf16IsWellFormed(cs[1..]);
      var head, rest := UnitsOf(cs[0]), ToUtf16(cs[1..]);
      var u := head + rest;
      assert u[|head|..] == rest;
      if |head| == 2 {
        assert Paired(u[0], u[1]) == cs[0];
      }
    }
  }

  /** The decoder's text, encoded again by the encoder, gives back the bytes exactly when they are well-formed. */
  lemma DecodedTextEncodesBack(s: seq<Byte>)
    ensures WellFormed(s) <==> ToUtf8(Scalars(ToUtf16(Lossy(s)))) == s
  {
    ScalarsOfUtf16(Lossy(s));
    WellFormedIsEncoded(s);
  }

  // ----------------------------------------------------------------- order

  /** Lexicographic order: by the first difference, a proper prefix first. */
  predicate Before(a: seq<int>, b: seq<int>)
  {
    b != [] && (a == [] || a[0] < b[0] || (a[0] == b[0] && Before(a[1..], b[1..])))
  }

  lemma {:induction false} BeforeAt(a: seq<int>, b: seq<int>, k: nat)
    requires k < |a| && k < |b| && a[..k] == b[..k] && a[k] < b[k]
    ensures Before(a, b)
  {
    if k > 0 {
      assert a[0] == a[..k][0] == b[..k][0] == b[0];
      assert a[1..][..k - 1] == a[..k][1..] && b[1..][..k - 1] == b[..k][1..];
      BeforeAt(a[1..], b[1..], k - 1);
    }
  }

  lemma {:induction false} BeforeIsTotal(a: seq<int>, b: seq<int>)
    ensures Before(a, b) || a == b || Before(b, a)
    ensures !(Before(a, b) && Before(b, a)) && !Before(a, a)
  {
    if a != [] && b != [] {
      BeforeIsTotal(a[1..], b[1..]);
      BeforeIsTotal(a[1..], a[1..]);
      if a[0] == b[0] && a[1..] == b[1..] {
        assert a == [a[0]] + a[1..] && b == [b[0]] + b[1..];
      }
    } else if a != [] {
      BeforeIsTotal(a[1..], a[1..]);
    }
  }

  lemma {:induction false} BeforeSkips(head: seq<int>, a: seq<int>, b: seq<int>)
    ensures Before(head + a, head + b) <==> Before(a, b)
  {
    if head == [] {
      assert head + a == a && head + b == b;
    } else {
      BeforeSkips(head[1..], a, b);
      assert (head + a)[1..] == head[1..] + a && (head + b)[1..] == head[1..] + b;
    }
  }

  /** The first of the four base-64 digits in which a smaller value differs from a larger one is smaller, and so is the
    * byte it is in; or the sequences differ in length, and their lead bytes tell. */
  lemma DigitsKeepOrder(c: Scalar, c3: int, c2: int, c1: int, c0: int, d: Scalar, d3: int, d2: int, d1: int, d0: int)
    returns (k: nat)
    requires c == c3 * 0x4_0000 + c2 * 0x1000 + c1 * 0x40 + c0 < d == d3 * 0x4_0000 + d2 * 0x1000 + d1 * 0x40 + d0
    requires 0 <= c3 < 8 && 0 <= c2 < 0x40 && 0 <= c1 < 0x40 && 0 <= c0 < 0x40
    requires 0 <= d3 < 8 && 0 <= d2 < 0x40 && 0 <= d1 < 0x40 && 0 <= d0 < 0x40
    ensures var a, b := BytesOf(c), BytesOf(d); k < |a| && k < |b| && a[..k] == b[..k] && a[k] < b[k]
  {
    hide BytesOf;
    BytesOfDigits(c, c3, c2, c1, c0);
    BytesOfDigits(d, d3, d2, d1, d0);
    if |BytesOf(c)| != |BytesOf(d)| || c3 < d3 {
      k := 0;
    } else if c2 < d2 {
      k := if d < 0x1_0000 then 0 else 1;
    } else if c1 < d1 {
      k := if d < 0x800 then 0 else if d < 0x1_0000 then 1 else 2;
    } else {
      k := |BytesOf(d)| - 1;
    }
  }

  /** The encodings of scalar values are in the order of the values, none a prefix of another. */
  lemma EncodingKeepsOrder(c: Scalar, d: Scalar) returns (k: nat)
    requires c < d
    ensures var a, b := BytesOf(c), BytesOf(d); k < |a| && k < |b| && a[..k] == b[..k] && a[k] < b[k]
  {
    hide BytesOf;
    var c1, d1 := c as int / 0x40, d as int / 0x40;
    var c2, d2 := c1 / 0x40, d1 / 0x40;
    k := DigitsKeepOrder(c, c2 / 0x40, c2 % 0x40, c1 % 0x40, c as int % 0x40,
                         d, d2 / 0x40, d2 % 0x40, d1 % 0x40, d as int % 0x40);
  }

  /** Encoding keeps the order of texts: bytes sort as their scalar values do. */
  lemma {:induction false} EncodedTextKeepsOrder(cs: seq<Scalar>, ds: seq<Scalar>)
    ensures Before(ToUtf8(cs), ToUtf8(ds)) <==> Before(cs, ds)
  {
    if cs == [] || ds == [] {
      if ds != [] {
        BytesOfIsChar(ds[0]);
      }
    } else {
      var a, b := BytesOf(cs[0]), BytesOf(ds[0]);
      hide BytesOf;
      if cs[0] == ds[0] {
        EncodedTextKeepsOrder(cs[1..], ds[1..]);
        BeforeSkips(a, ToUtf8(cs[1..]), ToUtf8(ds[1..]));
      } else {
        BeforeIsTotal(ToUtf8(cs), ToUtf8(ds));
        var k;
        if cs[0] < ds[0] {
          k := EncodingKeepsOrder(cs[0], ds[0]);
          assert ToUtf8(cs)[..k] == a[..k] && ToUtf8(ds)[..k] == b[..k];
          BeforeAt(ToUtf8(cs), ToUtf8(ds), k);
        } else {
          k := EncodingKeepsOrder(ds[0], cs[0]);
          assert ToUtf8(cs)[..k] == a[..k] && ToUtf8(ds)[..k] == b[..k];
          BeforeAt(ToUtf8(ds), ToUtf8(cs), k);
        }
      }
    }
  }

  /** So well-formed bytes decode in order. */
  lemma DecodedTextKeepsOrder(s: seq<Byte>, t: seq<Byte>)
    requires WellFormed(s) && WellFormed(t)
    ensures Before(s, t) <==> Before(Lossy(s), Lossy(t))
  {
    WellFormedRoundTrip(s);
    WellFormedRoundTrip(t);
    EncodedTextKeepsOrder(Lossy(s), Lossy(t));
  }

  /** A scalar value below 0x1_0000 is its own unit, and those above have pairs in their order. */
  lemma UnitsKeepOrder(c: Scalar, d: Scalar)
    ensures UnitsOf(c) == [c] <==> c < 0x1_0000
    ensures c >= 0x1_0000 ==> |UnitsOf(c)| == 2 && High(UnitsOf(c)[0]) && Low(UnitsOf(c)[1])
    ensures 0x1_0000 <= c < d ==> Before(UnitsOf(c), UnitsOf(d))
  {
    if 0x1_0000 <= c < d {
      var m: int, n: int := c - 0x1_0000, d - 0x1_0000;
      assert m / 0x400 <= n / 0x400 && (m / 0x400 == n / 0x400 ==> m % 0x400 < n % 0x400);
      BeforeAt(UnitsOf(c), UnitsOf(d), if m / 0x400 < n / 0x400 then 0 else 1);
    }
  }

  /** Surrogate pairs encode to sequences of four bytes in the order of the pairs. */
  lemma EncodedPairsKeepOrder(u: seq<Unit>, v: seq<Unit>)
    requires |u| == |v| == 2 && High(u[0]) && Low(u[1]) && High(v[0]) && Low(v[1]) && Before(u, v)
    ensures var a, b := ToUtf8(Scalars(u)), ToUtf8(Scalars(v)); |a| == |b| == 4 && Before(a, b)
  {
    PairIsOneScalar(u);
    PairIsOneScalar(v);
    var c, d := Paired(u[0], u[1]), Paired(v[0], v[1]);
    UnitsKeepOrder(d, c);
    BeforeIsTotal(u, v);
    BeforeIsTotal(u, u);
    EncodedTextKeepsOrder([c], [d]);
  }

  lemma PairIsOneScalar(u: seq<Unit>)
    requires |u| == 2 && High(u[0]) && Low(u[1])
    ensures Scalars(u) == [Paired(u[0], u[1])] && UnitsOf(Paired(u[0], u[1])) == u
    ensures ToUtf8(Scalars(u)) == BytesOf(Paired(u[0], u[1])) && |ToUtf8(Scalars(u))| == 4
  {
    assert u[2..] == [];
    assert ToUtf8(Scalars(u)) == BytesOf(Paired(u[0], u[1])) + ToUtf8([]);
  }

  /** And sequences of four bytes decode to surrogate pairs in the order of the bytes. */
  lemma DecodedPairsKeepOrder(s: seq<Byte>, t: seq<Byte>)
    requires |s| == |t| == 4 && Utf8Char(s) && Utf8Char(t) && Before(s, t)
    ensures var u, v := ToUtf16(Lossy(s)), ToUtf16(Lossy(t));
            && |u| == |v| == 2 && High(u[0]) && Low(u[1]) && High(v[0]) && Low(v[1]) && Before(u, v)
  {
    hide UnitsOf, Scalars;
    CharIsOneScalar(s);
    CharIsOneScalar(t);
    DecodedTextKeepsOrder(s, t);
    var c, d := ScalarOf(s), ScalarOf(t);
    assert c < d;
    UnitsKeepOrder(c, d);
    UnitsKeepOrder(d, c);
  }

  lemma CharIsOneScalar(s: seq<Byte>)
    requires |s| == 4 && Utf8Char(s)
    ensures WellFormed(s) && Lossy(s) == [ScalarOf(s)] && ScalarOf(s) >= 0x1_0000
    ensures ToUtf16(Lossy(s)) == UnitsOf(ScalarOf(s))
  {
    assert s[..4] == s && s[4..] == [];
    CompleteIsChar(s, 4);
    ScalarOfBytes(s);
    Nothing();
    LossyStep(s);
    WellFormedStep(s);
    assert ToUtf16([ScalarOf(s)]) == UnitsOf(ScalarOf(s)) + ToUtf16([]);
  }

  /** An example of section 7 of RFC 3629, U+233B4, in both directions. */
  lemma Example()
    ensures ToUtf8(Scalars([0xD84C, 0xDFB4])) == [0xF0, 0xA3, 0x8E, 0xB4]
    ensures ToUtf16(Lossy([0xF0, 0xA3, 0x8E, 0xB4])) == [0xD84C, 0xDFB4]
  {
    hide Lossy, Scalars;
    PairIsOneScalar([0xD84C, 0xDFB4]);
    assert Paired(0xD84C, 0xDFB4) == 0x233B4;
    CharIsOneScalar([0xF0, 0xA3, 0x8E, 0xB4]);
  }
}
