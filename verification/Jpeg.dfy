/** The size of a JPEG listing image, read from its first frame header
  * (ITU-T T.81, sections B.1.1.2, B.1.1.4, B.2.2).
  */
module Jpeg {
  import opened Seqs
  import opened Utf8
  import opened Wrappers

  datatype Size = Size(width: nat, height: nat)

  predicate Standalone(marker: Byte)
  {
    marker == 0x01 || 0xD0 <= marker <= 0xD8
  }

  /** Start of frame: C0 to CF but the tables C4, C8 and CC. */
  predicate FrameMarker(marker: Byte)
  {
    0xC0 <= marker <= 0xCF && marker !in {0xC4, 0xC8, 0xCC}
  }

  function BigEndian(high: Byte, low: Byte): nat
  {
    0x100 * high + low
  }

  // ------------------------------------------------------------------ the code

  function NextFF(data: seq<Byte>, offset: nat): (r: nat)
    requires offset <= |data|
    ensures offset <= r <= |data| && (r < |data| ==> data[r] == 0xFF) && forall i :: offset <= i < r ==> data[i] != 0xFF
    decreases |data| - offset
  {
    if offset == |data| || data[offset] == 0xFF then offset else NextFF(data, offset + 1)
  }

  function PastFF(data: seq<Byte>, offset: nat): (r: nat)
    requires offset <= |data|
    ensures offset <= r <= |data| && (r < |data| ==> data[r] != 0xFF) && forall i :: offset <= i < r ==> data[i] == 0xFF
    decreases |data| - offset
  {
    if offset == |data| || data[offset] != 0xFF then offset else PastFF(data, offset + 1)
  }

  /** What a marker's code leads to: nothing, the rest of the data, or a frame header's size. */
  datatype Look = Stop | Onward(to: nat) | Frame(size: Size)

  function LookAt(data: seq<Byte>, at: nat): (r: Look)
    requires at <= |data|
    ensures r.Onward? ==> at < r.to <= |data|
  {
    if at == |data| then Stop
    else if Standalone(data[at]) then Onward(at + 1)
    else if data[at] in {0xD9, 0xDA} || at + 3 > |data| then Stop
    else
      var length := BigEndian(data[at + 1], data[at + 2]);
      if length < 2 || at + 1 + length > |data| then Stop
      else if !FrameMarker(data[at]) then Onward(at + 1 + length)
      else if length < 7 then Stop
      else Frame(Size(BigEndian(data[at + 6], data[at + 7]), BigEndian(data[at + 4], data[at + 5])))
  }

  /** The size a scan from the offset finds: of the first frame header, before any scan or end of image. */
  function Scan(data: seq<Byte>, offset: nat): Option<Size>
    requires offset <= |data|
    decreases |data| - offset
  {
    match LookAt(data, PastFF(data, NextFF(data, offset)))
    case Stop => None
    case Onward(to) => Scan(data, to)
    case Frame(size) => Some(size)
  }

  lemma ScanOne(data: seq<Byte>, offset: nat)
    requires offset <= |data|
    ensures Scan(data, offset) == match LookAt(data, PastFF(data, NextFF(data, offset)))
                                  case Stop => None
                                  case Onward(to) => Scan(data, to)
                                  case Frame(size) => Some(size)
  {
  }

  lemma ScanEnds(data: seq<Byte>)
    ensures Scan(data, |data|) == None
  {
  }

  /** Past anything that is not FF, and then past the fill bytes. */
  method SkipToMarker(data: seq<Byte>, start: nat) returns (offset: nat)
    requires start <= |data|
    ensures offset <= |data| && offset == PastFF(data, NextFF(data, start))
  {
    offset := start;
    while offset < |data| && data[offset] != 0xFF
      invariant start <= offset <= |data| && NextFF(data, start) == NextFF(data, offset)
    {
      offset := offset + 1;
    }
    while offset < |data| && data[offset] == 0xFF
      invariant offset <= |data| && PastFF(data, NextFF(data, start)) == PastFF(data, offset)
    {
      offset := offset + 1;
    }
  }

  /** `jpeg_dimensions`. */
  method JpegDimensions(data: seq<Byte>) returns (r: Option<Size>)
    ensures r == if |data| >= 2 && data[0] == 0xFF && data[1] == 0xD8 then Scan(data, 2) else None
  {
    hide Scan, NextFF, PastFF, Standalone, FrameMarker, BigEndian;
    ScanEnds(data);
    if !(|data| >= 2 && data[0] == 0xFF && data[1] == 0xD8) {
      return None;
    }
    var offset := 2;
    while offset < |data|
      invariant 2 <= offset <= |data| && Scan(data, 2) == Scan(data, offset)
      decreases |data| - offset
    {
      ScanOne(data, offset);
      offset := SkipToMarker(data, offset);
      if offset >= |data| {
        return None;
      }
      var marker := data[offset];
      offset := offset + 1;
      if Standalone(marker) {
        continue;
      }
      if marker in {0xD9, 0xDA} {
        return None;
      }
      if offset + 2 > |data| {
        return None;
      }
      var segmentLength := BigEndian(data[offset], data[offset + 1]);
      if segmentLength < 2 {
        return None;
      }
      var segmentStart, segmentEnd := offset + 2, offset + segmentLength;
      if segmentEnd > |data| {
        return None;
      }
      if FrameMarker(marker) {
        if segmentStart + 5 > segmentEnd {
          return None;
        }
        var height := BigEndian(data[segmentStart + 1], data[segmentStart + 2]);
        var width := BigEndian(data[segmentStart + 3], data[segmentStart + 4]);
        return Some(Size(width, height));
      }
      offset := segmentEnd;
    }
    r := None;
  }

  // -------------------------------------------------------------- the standard

  /** A marker after its fill bytes: by itself, or with its segment's parameters. */
  datatype Piece = Alone(fill: nat, marker: Byte) | Segment(fill: nat, marker: Byte, parameters: seq<Byte>)

  /** Table B.1: TEM, RST0 to RST7 and SOI stand alone. */
  const STANDALONE_CODES: set<int> := {0x01, 0xD0, 0xD1, 0xD2, 0xD3, 0xD4, 0xD5, 0xD6, 0xD7, 0xD8}

  /** Table B.1: the start of frame codes, SOF0 to SOF15 without DHT, JPG and DAC. */
  const FRAME_CODES: set<int> :=
    {0xC0, 0xC1, 0xC2, 0xC3, 0xC5, 0xC6, 0xC7, 0xC9, 0xCA, 0xCB, 0xCD, 0xCE, 0xCF}

  predicate WellFormed(p: Piece)
  {
    match p
    case Alone(_, marker) => marker as int in STANDALONE_CODES
    case Segment(_, marker, parameters) =>
      marker as int !in STANDALONE_CODES && marker !in {0x00, 0xFF, 0xD9, 0xDA} && |parameters| + 2 < 0x1_0000
  }

  predicate IsFrame(p: Piece)
  {
    p.Segment? && p.marker as int in FRAME_CODES
  }

  lemma CodesAre(marker: Byte)
    ensures Standalone(marker) <==> marker as int in STANDALONE_CODES
    ensures FrameMarker(marker) <==> marker as int in FRAME_CODES
  {
  }

  function Fill(n: nat): (t: seq<Byte>)
    ensures |t| == n && forall i :: 0 <= i < n ==> t[i] == 0xFF
  {
    seq(n, i => 0xFF)
  }

  function LengthBytes(n: nat): seq<Byte>
    requires n < 0x1_0000
  {
    [n / 0x100, n % 0x100]
  }

  function Text(p: Piece): seq<Byte>
    requires WellFormed(p)
  {
    Fill(p.fill) + [0xFF, p.marker] + if p.Alone? then [] else LengthBytes(|p.parameters| + 2) + p.parameters
  }

  function Texts(pieces: seq<Piece>): seq<Byte>
    requires forall p :: p in pieces ==> WellFormed(p)
  {
    if pieces == [] then [] else Text(pieces[0]) + Texts(pieces[1..])
  }

  /** The scan from the start of a marker stands at the marker's code after its fill bytes. */
  lemma MarkerAt(data: seq<Byte>, offset: nat, fill: nat, marker: Byte)
    requires offset + fill + 2 <= |data| && marker != 0xFF
    requires forall i :: offset <= i <= offset + fill ==> data[i] == 0xFF
    requires data[offset + fill + 1] == marker
    ensures NextFF(data, offset) == offset && PastFF(data, offset) == offset + fill + 1
  {
  }

  lemma PieceSkipped(before: seq<Byte>, p: Piece, after: seq<Byte>)
    requires WellFormed(p) && !IsFrame(p)
    ensures Scan(before + Text(p) + after, |before|) == Scan(before + Text(p) + after, |before + Text(p)|)
  {
    hide Text, Scan, NextFF, PastFF, BigEndian;
    CodesAre(p.marker);
    var data, at := before + Text(p) + after, |before| + p.fill + 1;
    PieceInData(before, p, after);
    MarkerAt(data, |before|, p.fill, p.marker);
    ScanOne(data, |before|);
  }

  /** Where a piece's bytes lie. */
  lemma PieceInData(before: seq<Byte>, p: Piece, after: seq<Byte>)
    requires WellFormed(p)
    ensures var data, at := before + Text(p) + after, |before| + p.fill + 1;
            && |Text(p)| == p.fill + 2 + (if p.Alone? then 0 else 2 + |p.parameters|)
            && (forall i :: |before| <= i < at ==> data[i] == 0xFF) && data[at] == p.marker
            && (p.Segment? ==>
                  && BigEndian(data[at + 1], data[at + 2]) == |p.parameters| + 2
                  && forall k :: 0 <= k < |p.parameters| ==> data[at + 3 + k] == p.parameters[k])
  {
    var data, at := before + Text(p) + after, |before| + p.fill + 1;
    assert forall i :: 0 <= i < |Text(p)| ==> data[|before| + i] == Text(p)[i];
    assert forall i :: |before| <= i < at ==> data[i] == Text(p)[i - |before|];
    if p.Segment? {
      assert data[at + 1] == Text(p)[p.fill + 2] == LengthBytes(|p.parameters| + 2)[0];
      assert data[at + 2] == Text(p)[p.fill + 3] == LengthBytes(|p.parameters| + 2)[1];
      forall k | 0 <= k < |p.parameters| ensures data[at + 3 + k] == p.parameters[k] {
        assert data[at + 3 + k] == Text(p)[p.fill + 4 + k];
      }
    }
  }

  lemma {:induction false} PiecesSkipped(before: seq<Byte>, pieces: seq<Piece>, after: seq<Byte>)
    requires forall p :: p in pieces ==> WellFormed(p) && !IsFrame(p)
    ensures Scan(before + Texts(pieces) + after, |before|)
         == Scan(before + Texts(pieces) + after, |before + Texts(pieces)|)
    decreases |pieces|
  {
    hide Scan, Text, WellFormed, IsFrame;
    if pieces != [] {
      var p, rest := pieces[0], pieces[1..];
      PieceSkipped(before, p, Texts(rest) + after);
      PiecesSkipped(before + Text(p), rest, after);
      Assoc(before, Text(p), Texts(rest));
      Assoc(before + Text(p), Texts(rest), after);
    }
  }

  const START_OF_IMAGE: seq<Byte> := [0xFF, 0xD8]

  /** For every well-formed sequence of markers, with any fill bytes, the size is the first frame header's: its
    * lines as the height and its samples per line as the width, whatever follows. */
  lemma FirstFrameHeader(pieces: seq<Piece>, frame: Piece, after: seq<Byte>)
    requires forall p :: p in pieces ==> WellFormed(p) && !IsFrame(p)
    requires WellFormed(frame) && IsFrame(frame) && |frame.parameters| >= 5
    ensures Scan(START_OF_IMAGE + Texts(pieces) + Text(frame) + after, 2) ==
            Some(Size(256 * frame.parameters[3] as int + frame.parameters[4] as int,
                      256 * frame.parameters[1] as int + frame.parameters[2] as int))
  {
    hide Text, Scan, NextFF, PastFF;
    CodesAre(frame.marker);
    var before := START_OF_IMAGE + Texts(pieces);
    var data, at := before + Text(frame) + after, |before| + frame.fill + 1;
    PiecesSkipped(START_OF_IMAGE, pieces, Text(frame) + after);
    assert START_OF_IMAGE + Texts(pieces) + (Text(frame) + after) == data;
    PieceInData(before, frame, after);
    MarkerAt(data, |before|, frame.fill, frame.marker);
    ScanOne(data, |before|);
    assert data[at + 4] == frame.parameters[1] && data[at + 5] == frame.parameters[2];
    assert data[at + 6] == frame.parameters[3] && data[at + 7] == frame.parameters[4];
  }

  /** A scan or an end of image before any frame header leaves the size unknown. */
  lemma ScanFirst(pieces: seq<Piece>, fill: nat, marker: Byte, after: seq<Byte>)
    requires forall p :: p in pieces ==> WellFormed(p) && !IsFrame(p)
    requires marker in {0xD9, 0xDA}
    ensures Scan(START_OF_IMAGE + Texts(pieces) + (Fill(fill) + [0xFF, marker]) + after, 2) == None
  {
    hide Text, Scan, NextFF, PastFF, BigEndian;
    var before, end := START_OF_IMAGE + Texts(pieces), Fill(fill) + [0xFF, marker];
    var data := before + end + after;
    PiecesSkipped(START_OF_IMAGE, pieces, end + after);
    assert START_OF_IMAGE + Texts(pieces) + (end + after) == data;
    assert forall i :: 0 <= i < |end| ==> data[|before| + i] == end[i];
    assert forall i :: |before| <= i <= |before| + fill ==> data[i] == end[i - |before|];
    assert data[|before| + fill + 1] == end[fill + 1];
    MarkerAt(data, |before|, fill, marker);
    ScanOne(data, |before|);
  }
}
