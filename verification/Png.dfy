// PNG tiles: row filters and their inversion (ISO/IEC 15948, section 9), the chunk
// stream, the writer of the tile generator and the decoder of the map renderer.
module Png {
  import opened Arithmetic
  import opened Bytes

  const TILE: nat := 256

  // ----- Filters -------------------------------------------------------------------

  /** paeth: the neighbour nearest to a + b - c (section 9.4 of ISO/IEC 15948). */
  function Paeth(a: byte, b: byte, c: byte): (r: byte)
    ensures var p := a as int + b as int - c as int;
            && r in [a, b, c]
            && Abs(p - r) <= Abs(p - a) && Abs(p - r) <= Abs(p - b) && Abs(p - r) <= Abs(p - c)
            // Ties go to the left neighbour, then to the one above.
            && (Abs(p - a) == Abs(p - r) ==> r == a)
            && (r != a && Abs(p - b) == Abs(p - r) ==> r == b)
  {
    var p := a as int + b as int - c as int;
    var pa, pb, pc := Abs(p - a), Abs(p - b), Abs(p - c);
    if pa <= pb && pa <= pc then a else if pb <= pc then b else c
  }

  /** The predictor of filter types 0 to 4. */
  function Predictor(filter: byte, left: byte, up: byte, upperLeft: byte): byte {
    if filter == 1 then left
    else if filter == 2 then up
    else if filter == 3 then (left as int + up as int) / 2
    else if filter == 4 then Paeth(left, up, upperLeft)
    else 0
  }

  /** The byte at a position, 0 outside. */
  function Get(s: seq<byte>, i: int): (b: byte)
    ensures 0 <= i < |s| ==> b == s[i]
  {
    if 0 <= i < |s| then s[i] else 0
  }

  /** What the neighbours in a picture predict for byte x of row y. */
  function Predicted(raw: seq<byte>, filter: byte, stride: nat, channels: nat, y: nat, x: nat): byte {
    var p := y * stride + x;
    Predictor(filter,
              if x >= channels then Get(raw, p - channels) else 0,
              if y > 0 then Get(raw, p - stride) else 0,
              if y > 0 && x >= channels then Get(raw, p - stride - channels) else 0)
  }

  /** Row y of a filtered stream: its filter byte, then byte x. */
  function FilterOf(filtered: seq<byte>, stride: nat, y: nat): byte { Get(filtered, y * (stride + 1)) }

  function FilteredByte(filtered: seq<byte>, stride: nat, y: nat, x: nat): byte {
    Get(filtered, y * (stride + 1) + 1 + x)
  }

  /** "Filt(x) = Orig(x) - predictor", in bytes. */
  ghost predicate FilteredAt(filtered: seq<byte>, raw: seq<byte>, stride: nat, channels: nat, y: nat, x: nat) {
    FilteredByte(filtered, stride, y, x) as int
      == (Get(raw, y * stride + x) as int
          - Predicted(raw, FilterOf(filtered, stride, y), stride, channels, y, x) as int) % 256
  }

  ghost predicate ValidFilters(filtered: seq<byte>, stride: nat, height: nat) {
    forall y: nat | y < height :: FilterOf(filtered, stride, y) <= 4
  }

  /** The filtered stream encodes this picture. */
  ghost predicate Encodes(filtered: seq<byte>, raw: seq<byte>, stride: nat, channels: nat, height: nat) {
    && |raw| == stride * height && |filtered| == (stride + 1) * height
    && ValidFilters(filtered, stride, height)
    && forall y: nat, x: nat | y < height && x < stride :: FilteredAt(filtered, raw, stride, channels, y, x)
  }

  lemma Unfiltering(f: byte, r: byte, p: byte)
    ensures f as int == (r as int - p as int) % 256 <==> r as int == (f as int + p as int) % 256
  {
  }

  /** The prediction only looks at earlier bytes. */
  lemma PredictedFromPrefix(raw: seq<byte>, other: seq<byte>, filter: byte, stride: nat, channels: nat, y: nat, x: nat)
    requires channels > 0 && stride > 0 && y * stride + x <= |raw| && |raw| == |other|
    requires raw[..y * stride + x] == other[..y * stride + x]
    ensures Predicted(raw, filter, stride, channels, y, x) == Predicted(other, filter, stride, channels, y, x)
  {
    var p := y * stride + x;
    assert forall i | i < p :: Get(raw, i) == Get(raw[..p], i);
    assert forall i | i < p :: Get(other, i) == Get(other[..p], i);
  }

  /** A filtered stream encodes one picture only. */
  lemma {:induction false} EncodesOne(filtered: seq<byte>, raw: seq<byte>, other: seq<byte>, stride: nat, channels: nat,
                                      height: nat, y: nat, x: nat)
    requires stride > 0 && channels > 0
    requires Encodes(filtered, raw, stride, channels, height) && Encodes(filtered, other, stride, channels, height)
    requires y <= height && x <= stride && (y == height ==> x == 0)
    ensures y * stride + x <= |raw| && raw[..y * stride + x] == other[..y * stride + x]
    decreases y, x
  {
    if x > 0 {
      RowsGrow(y, height, stride);
      EncodesOne(filtered, raw, other, stride, channels, height, y, x - 1);
      ByteIsDetermined(filtered, raw, other, stride, channels, height, y, x - 1);
    } else if y > 0 {
      RowsGrow(y - 1, height, stride);
      EncodesOne(filtered, raw, other, stride, channels, height, y - 1, stride);
    }
  }

  lemma ByteIsDetermined(filtered: seq<byte>, raw: seq<byte>, other: seq<byte>, stride: nat, channels: nat,
                         height: nat, y: nat, x: nat)
    requires stride > 0 && channels > 0
    requires Encodes(filtered, raw, stride, channels, height) && Encodes(filtered, other, stride, channels, height)
    requires y < height && x < stride && y * stride + x < |raw|
    requires raw[..y * stride + x] == other[..y * stride + x]
    ensures raw[..y * stride + x + 1] == other[..y * stride + x + 1]
  {
    var p := y * stride + x;
    var filter := FilterOf(filtered, stride, y);
    PredictedFromPrefix(raw, other, filter, stride, channels, y, x);
    assert FilteredAt(filtered, raw, stride, channels, y, x) && FilteredAt(filtered, other, stride, channels, y, x);
    var f := FilteredByte(filtered, stride, y, x);
    Unfiltering(f, raw[p], Predicted(raw, filter, stride, channels, y, x));
    Unfiltering(f, other[p], Predicted(raw, filter, stride, channels, y, x));
    assert raw[..p + 1] == raw[..p] + [raw[p]] && other[..p + 1] == other[..p] + [other[p]];
  }

  /** The five filter types of section 9.2 of ISO/IEC 15948, on the bytes: what each adds
      to the filtered byte. at is the place of byte x of row y in the picture, head that of
      the row's filter type in the filtered stream. */
  lemma StandardFilters(filtered: seq<byte>, raw: seq<byte>, stride: nat, channels: nat, height: nat, y: nat, x: nat,
                        at: nat, head: nat)
    requires Encodes(filtered, raw, stride, channels, height) && y < height && x < stride
    requires at == y * stride + x && head == y * (stride + 1)
    ensures at < |raw| && head + 1 + x < |filtered| && at >= x && (y > 0 ==> at >= stride + x)
    ensures var a: byte := if x >= channels then raw[at - channels] else 0;
      var b: byte := if y > 0 then raw[at - stride] else 0;
      var c: byte := if y > 0 && x >= channels then raw[at - stride - channels] else 0;
      var filter, byteNow := filtered[head], filtered[head + 1 + x] as int;
      && filter <= 4
      && (filter == 0 ==> raw[at] as int == byteNow)
      && (filter == 1 ==> raw[at] as int == (byteNow + a) % 256)
      && (filter == 2 ==> raw[at] as int == (byteNow + b) % 256)
      && (filter == 3 ==> raw[at] as int == (byteNow + (a as int + b as int) / 2) % 256)
      && (filter == 4 ==> raw[at] as int == (byteNow + Paeth(a, b, c)) % 256)
  {
    hide Encodes, Paeth, Predictor, Predicted;
    EncodesAt(filtered, raw, stride, channels, height, y, x, at, head);
    PlaceInRange(stride, channels, height, y, x);
    PredictedIs(raw, filtered[head], stride, channels, y, x, at);
    AddedByFilter(filtered[head], filtered[head + 1 + x], if x >= channels then raw[at - channels] else 0,
                  if y > 0 then raw[at - stride] else 0,
                  if y > 0 && x >= channels then raw[at - stride - channels] else 0, raw[at]);
  }

  lemma EncodesAt(filtered: seq<byte>, raw: seq<byte>, stride: nat, channels: nat, height: nat, y: nat, x: nat,
                  at: nat, head: nat)
    requires Encodes(filtered, raw, stride, channels, height) && y < height && x < stride
    requires at == y * stride + x && head == y * (stride + 1)
    ensures at < |raw| && head + 1 + x < |filtered| && filtered[head] <= 4
    ensures raw[at] as int
      == (filtered[head + 1 + x] as int + Predicted(raw, filtered[head], stride, channels, y, x) as int) % 256
  {
    hide Predicted;
    PlaceInRange(stride, channels, height, y, x);
    assert FilteredAt(filtered, raw, stride, channels, y, x) && FilterOf(filtered, stride, y) <= 4;
    Unfiltering(filtered[head + 1 + x], raw[at], Predicted(raw, filtered[head], stride, channels, y, x));
  }

  lemma PredictedIs(raw: seq<byte>, filter: byte, stride: nat, channels: nat, y: nat, x: nat, at: nat)
    requires at == y * stride + x < |raw| && (y > 0 ==> at - stride >= x)
    ensures Predicted(raw, filter, stride, channels, y, x)
      == Predictor(filter, if x >= channels then raw[at - channels] else 0, if y > 0 then raw[at - stride] else 0,
                   if y > 0 && x >= channels then raw[at - stride - channels] else 0)
  {
    hide Predictor;
  }

  lemma AddedByFilter(filter: byte, byteNow: byte, a: byte, b: byte, c: byte, r: byte)
    requires filter <= 4 && r as int == (byteNow as int + Predictor(filter, a, b, c) as int) % 256
    ensures filter == 0 ==> r == byteNow
    ensures filter == 1 ==> r as int == (byteNow as int + a) % 256
    ensures filter == 2 ==> r as int == (byteNow as int + b) % 256
    ensures filter == 3 ==> r as int == (byteNow as int + (a as int + b as int) / 2) % 256
    ensures filter == 4 ==> r as int == (byteNow as int + Paeth(a, b, c)) % 256
  {
    hide Paeth;
  }

  lemma PlaceInRange(stride: nat, channels: nat, height: nat, y: nat, x: nat)
    requires y < height && x < stride
    ensures y * stride + x < stride * height && y * (stride + 1) + 1 + x < (stride + 1) * height
    ensures y > 0 ==> y * stride >= stride
    ensures y > 0 ==> y * stride + x - stride >= x
  {
    RowsGrow(y, height, stride);
    RowsGrow(y, height, stride + 1);
    if y > 0 {
      RowsGrow(y - 1, y, stride);
    }
  }

  // ----- The decoder's loop ------------------------------------------------------------

  /** The bytes of the picture before byte x of row y are decoded. */
  ghost predicate DecodedUpTo(filtered: seq<byte>, raw: seq<byte>, stride: nat, channels: nat, y: nat, x: nat) {
    forall v: nat, u: nat | u < stride && (v < y || (v == y && u < x)) ::
      FilteredAt(filtered, raw, stride, channels, v, u)
  }

  lemma EarlierIsBefore(stride: nat, y: nat, x: nat, v: nat, u: nat)
    requires u < stride && (v < y || (v == y && u < x))
    ensures v * stride + u < y * stride + x
  {
    if v < y {
      RowsGrow(v, y, stride);
    }
  }

  lemma DecodeByte(filtered: seq<byte>, raw: seq<byte>, stride: nat, channels: nat, y: nat, x: nat, b: byte)
    requires stride > 0 && channels > 0 && x < stride && y * stride + x < |raw|
    requires DecodedUpTo(filtered, raw, stride, channels, y, x)
    requires b as int == (FilteredByte(filtered, stride, y, x) as int
                          + Predicted(raw, FilterOf(filtered, stride, y), stride, channels, y, x) as int) % 256
    ensures DecodedUpTo(filtered, raw[y * stride + x := b], stride, channels, y, x + 1)
  {
    hide Predictor;
    var p := y * stride + x;
    var next := raw[p := b];
    forall v: nat, u: nat | u < stride && (v < y || (v == y && u < x + 1))
      ensures FilteredAt(filtered, next, stride, channels, v, u)
    {
      if v == y && u == x {
        PredictedFromPrefix(raw, next, FilterOf(filtered, stride, y), stride, channels, y, x);
        Unfiltering(FilteredByte(filtered, stride, y, x), b,
                    Predicted(next, FilterOf(filtered, stride, y), stride, channels, y, x));
      } else {
        EarlierIsBefore(stride, y, x, v, u);
        assert raw[..v * stride + u] == next[..v * stride + u];
        PredictedFromPrefix(raw, next, FilterOf(filtered, stride, v), stride, channels, v, u);
        assert FilteredAt(filtered, raw, stride, channels, v, u);
      }
    }
  }

  /** One row of decode_png's unfiltering loop, in place. */
  method UnfilterRow(filtered: seq<byte>, raw: array<byte>, stride: nat, channels: nat, height: nat, y: nat)
    returns (ok: bool)
    requires stride > 0 && channels > 0 && y < height
    requires |filtered| == (stride + 1) * height && raw.Length == stride * height
    requires DecodedUpTo(filtered, raw[..], stride, channels, y, 0)
    modifies raw
    ensures ok == (FilterOf(filtered, stride, y) <= 4)
    ensures ok ==> DecodedUpTo(filtered, raw[..], stride, channels, y + 1, 0)
  {
    hide FilteredAt, Predictor, Predicted, DecodedUpTo, Paeth;
    PlaceInRange(stride, channels, height, y, 0);
    var filter := filtered[y * (stride + 1)];
    var source, row := y * (stride + 1) + 1, y * stride;
    var previous := if y > 0 then row - stride else 0;
    var x := 0;
    while x < stride
      invariant x <= stride
      invariant x > 0 ==> filter <= 4
      invariant DecodedUpTo(filtered, raw[..], stride, channels, y, x)
    {
      PlaceInRange(stride, channels, height, y, x);
      PredictedIs(raw[..], filter, stride, channels, y, x, row + x);
      var left := if x >= channels then raw[row + x - channels] else 0;
      var up := if y > 0 then raw[previous + x] else 0;
      var upperLeft := if y > 0 && x >= channels then raw[previous + x - channels] else 0;
      var known, b := UnfilterByte(filter, filtered[source + x], left, up, upperLeft);
      if !known {
        return false;
      }
      ghost var before := raw[..];
      DecodeByte(filtered, before, stride, channels, y, x, b);
      raw[row + x] := b;
      assert raw[..] == before[y * stride + x := b];
      x := x + 1;
    }
    NextRow(filtered, raw[..], stride, channels, y);
    return true;
  }

  /** One byte with its predictor added; there are five filter types. */
  method UnfilterByte(filter: byte, value: byte, left: byte, up: byte, upperLeft: byte) returns (known: bool, b: byte)
    ensures known == (filter <= 4)
    ensures known ==> b as int == (value as int + Predictor(filter, left, up, upperLeft) as int) % 256
  {
    hide Paeth;
    var predictor: byte := 0;
    if filter == 1 {
      predictor := left;
    } else if filter == 2 {
      predictor := up;
    } else if filter == 3 {
      predictor := (left as int + up as int) / 2;
    } else if filter == 4 {
      predictor := Paeth(left, up, upperLeft);
    } else if filter != 0 {
      return false, 0;
    }
    return true, (value as int + predictor as int) % 256;
  }

  method Unfilter(filtered: seq<byte>, stride: nat, channels: nat, height: nat) returns (ok: bool, raw: array<byte>)
    requires stride > 0 && channels > 0 && |filtered| == (stride + 1) * height
    ensures fresh(raw) && ok == ValidFilters(filtered, stride, height)
    ensures ok ==> Encodes(filtered, raw[..], stride, channels, height)
  {
    hide FilteredAt, Encodes;
    raw := new byte[stride * height](_ => 0);
    var y := 0;
    while y < height
      invariant y <= height && raw.Length == stride * height
      invariant forall v: nat | v < y :: FilterOf(filtered, stride, v) <= 4
      invariant DecodedUpTo(filtered, raw[..], stride, channels, y, 0)
    {
      var decoded := UnfilterRow(filtered, raw, stride, channels, height, y);
      if !decoded {
        return false, raw;
      }
      y := y + 1;
    }
    AllRows(filtered, raw[..], stride, channels, height);
    return true, raw;
  }

  lemma NextRow(filtered: seq<byte>, raw: seq<byte>, stride: nat, channels: nat, y: nat)
    requires DecodedUpTo(filtered, raw, stride, channels, y, stride)
    ensures DecodedUpTo(filtered, raw, stride, channels, y + 1, 0)
  {
  }

  lemma AllRows(filtered: seq<byte>, raw: seq<byte>, stride: nat, channels: nat, height: nat)
    requires |raw| == stride * height && |filtered| == (stride + 1) * height && ValidFilters(filtered, stride, height)
    requires DecodedUpTo(filtered, raw, stride, channels, height, 0)
    ensures Encodes(filtered, raw, stride, channels, height)
  {
  }

  /** Any choice of a filter for each row. */
  function FilterRows(raw: seq<byte>, filters: seq<byte>, stride: nat, channels: nat): (filtered: seq<byte>)
    requires |raw| == stride * |filters|
    ensures |filtered| == (stride + 1) * |filters|
  {
    seq((stride + 1) * |filters|, i requires 0 <= i < (stride + 1) * |filters| =>
      var y, c := i / (stride + 1), i % (stride + 1);
      if c == 0 then Get(filters, y)
      else ((Get(raw, y * stride + c - 1) as int
             - Predicted(raw, Get(filters, y), stride, channels, y, c - 1) as int) % 256) as byte)
  }

  lemma FilterRowsAt(raw: seq<byte>, filters: seq<byte>, stride: nat, channels: nat, y: nat, c: nat)
    requires |raw| == stride * |filters| && y < |filters| && c <= stride
    ensures y * (stride + 1) + c < (stride + 1) * |filters|
    ensures FilterRows(raw, filters, stride, channels)[y * (stride + 1) + c] as int
         == if c == 0 then filters[y] as int
            else (Get(raw, y * stride + c - 1) as int
                  - Predicted(raw, filters[y], stride, channels, y, c - 1) as int) % 256
  {
    hide Predicted;
    RowsGrow(y, |filters|, stride + 1);
    RowAndColumn(stride + 1, y, c);
  }

  /** Filtering with any filter types 0 to 4 per row makes a stream that encodes
      the picture. */
  lemma FilterRowsEncodes(raw: seq<byte>, filters: seq<byte>, stride: nat, channels: nat)
    requires stride > 0 && channels > 0 && |raw| == stride * |filters| && forall f <- filters :: f <= 4
    ensures Encodes(FilterRows(raw, filters, stride, channels), raw, stride, channels, |filters|)
  {
    hide Predicted, FilterRows;
    var filtered := FilterRows(raw, filters, stride, channels);
    forall y: nat | y < |filters| ensures FilterOf(filtered, stride, y) == filters[y] <= 4 {
      FilterRowsAt(raw, filters, stride, channels, y, 0);
      assert filters[y] in filters;
    }
    assert ValidFilters(filtered, stride, |filters|);
    forall y: nat, x: nat | y < |filters| && x < stride ensures FilteredAt(filtered, raw, stride, channels, y, x) {
      FilterRowsAt(raw, filters, stride, channels, y, x + 1);
      assert FilterOf(filtered, stride, y) == filters[y];
      assert FilteredByte(filtered, stride, y, x) == filtered[y * (stride + 1) + (x + 1)];
    }
  }

  /** The decoder recovers a picture of 3 or 4 bytes a pixel from every choice of
      filters. */
  method FilterRoundTrip(raw: seq<byte>, filters: seq<byte>, stride: nat, channels: nat) returns (back: seq<byte>)
    requires stride > 0 && channels in {3, 4} && |raw| == stride * |filters| && forall f <- filters :: f <= 4
    ensures back == raw
  {
    FilterRowsEncodes(raw, filters, stride, channels);
    var filtered := FilterRows(raw, filters, stride, channels);
    var ok, decoded := Unfilter(filtered, stride, channels, |filters|);
    EncodesOne(filtered, raw, decoded[..], stride, channels, |filters|, |filters|, 0);
    assert raw == raw[..|filters| * stride];
    return decoded[..];
  }

  // ----- Chunks ------------------------------------------------------------------------

  const SIGNATURE: seq<byte> := [137, 80, 78, 71, 13, 10, 26, 10]
  const IHDR: seq<byte> := [73, 72, 68, 82]
  const IDAT: seq<byte> := [73, 68, 65, 84]
  const IEND: seq<byte> := [73, 69, 78, 68]

  datatype Chunk = Chunk(kind: seq<byte>, data: seq<byte>, crc: seq<byte>)

  /** A chunk as the format demands; header data is at least 13 bytes long. */
  predicate ValidChunk(c: Chunk) {
    |c.kind| == 4 && |c.crc| == 4 && |c.data| < U32_SIZE && (c.kind == IHDR ==> |c.data| >= 13)
  }

  predicate ValidChunks(chunks: seq<Chunk>) {
    forall i | 0 <= i < |chunks| :: ValidChunk(chunks[i])
  }

  function ChunkBytes(c: Chunk): seq<byte>
    requires |c.data| < U32_SIZE
  {
    PutU32(|c.data|) + c.kind + c.data + c.crc
  }

  function ChunksBytes(chunks: seq<Chunk>): seq<byte>
    requires ValidChunks(chunks)
  {
    if chunks == [] then [] else ChunkBytes(chunks[0]) + ChunksBytes(chunks[1..])
  }

  /** What the decoder collects: header fields, as 32-bit ints, and IDAT data. */
  datatype Fields = Fields(width: int, height: int, colorType: int, compressed: seq<byte>)

  /** The chunk loop's outcome; Outside is a read past the end of the buffer, which
      only a header chunk with less than nine bytes can cause. */
  datatype Parsed = Good(fields: Fields) | Bad | Outside

  const NO_FIELDS := Fields(0, 0, 0, [])

  function ToInt32(v: nat): int { if v < 0x8000_0000 then v else v - U32_SIZE }

  /** The IHDR branch at a data offset. */
  function ReadHeader(bytes: seq<byte>, offset: nat, fields: Fields): Parsed {
    if offset + 9 > |bytes| then Outside
    else if bytes[offset + 8] != 8 then Bad
    else if offset + 10 > |bytes| then Outside
    else if bytes[offset + 9] != 2 && bytes[offset + 9] != 6 then Bad
    else if offset + 13 > |bytes| then Outside
    else if bytes[offset + 12] != 0 then Bad
    else Good(Fields(ToInt32(GetU32(bytes, offset)), ToInt32(GetU32(bytes, offset + 4)), bytes[offset + 9],
                     fields.compressed))
  }

  /** The chunk loop from an offset on. */
  function ParseChunks(bytes: seq<byte>, offset: nat, fields: Fields): Parsed
    decreases |bytes| - offset
  {
    if offset + 12 > |bytes| then Good(fields)
    else
      var length := GetU32(bytes, offset);
      if offset + 12 + length > |bytes| then Bad
      else
        var kind, data := bytes[offset + 4..offset + 8], offset + 8;
        var next := data + length + 4;
        if kind == IHDR then
          match ReadHeader(bytes, data, fields)
          case Good(read) => ParseChunks(bytes, next, read)
          case other => other
        else if kind == IDAT then
          ParseChunks(bytes, next, fields.(compressed := fields.compressed + bytes[data..data + length]))
        else if kind == IEND then Good(fields)
        else ParseChunks(bytes, next, fields)
  }

  // ----- When the chunk loop reads past the end ---------------------------------------------

  /** Does a whole chunk stand at this offset? */
  predicate ChunkFits(bytes: seq<byte>, offset: nat) {
    offset + 12 <= |bytes| && offset + 12 + GetU32(bytes, offset) <= |bytes|
  }

  function KindAt(bytes: seq<byte>, offset: nat): seq<byte>
    requires ChunkFits(bytes, offset)
  {
    bytes[offset + 4..offset + 8]
  }

  /** Where the chunks of a file start, by their declared lengths alone: from an offset
      through the end chunk, as long as whole chunks stand there. */
  function ChunkStarts(bytes: seq<byte>, offset: nat): (starts: seq<nat>)
    ensures forall k | 0 <= k < |starts| :: ChunkFits(bytes, starts[k])
    decreases |bytes| - offset
  {
    if !ChunkFits(bytes, offset) then []
    else if KindAt(bytes, offset) == IEND then [offset]
    else [offset] + ChunkStarts(bytes, offset + 12 + GetU32(bytes, offset))
  }

  /** A header whose tested bytes lie in the file and pass. */
  predicate HeaderGood(bytes: seq<byte>, start: nat) {
    var data := start + 8;
    data + 13 <= |bytes| && bytes[data + 8] == 8 && bytes[data + 9] in {2, 6} && bytes[data + 12] == 0
  }

  /** A header whose first tested byte that does not lie in the file comes before any
      that fails its test. */
  predicate HeaderCut(bytes: seq<byte>, start: nat) {
    var data := start + 8;
    || data + 9 > |bytes|
    || (bytes[data + 8] == 8 && (data + 10 > |bytes| || (bytes[data + 9] in {2, 6} && data + 13 > |bytes|)))
  }

  /** Of the header chunks, one is cut off by the end of the file and all before it are good. */
  predicate RunsOut(bytes: seq<byte>, offset: nat) {
    var starts := ChunkStarts(bytes, offset);
    exists k :: 0 <= k < |starts| && CutAt(bytes, starts, k)
  }

  predicate CutAt(bytes: seq<byte>, starts: seq<nat>, k: nat)
    requires k < |starts| && forall i | 0 <= i < |starts| :: ChunkFits(bytes, starts[i])
  {
    && KindAt(bytes, starts[k]) == IHDR && HeaderCut(bytes, starts[k])
    && forall j | 0 <= j < k && KindAt(bytes, starts[j]) == IHDR :: HeaderGood(bytes, starts[j])
  }

  /** The loop reads past the end exactly on such files. */
  lemma {:induction false} OutsideIsRunningOut(bytes: seq<byte>, offset: nat, fields: Fields)
    ensures ParseChunks(bytes, offset, fields).Outside? <==> RunsOut(bytes, offset)
    decreases |bytes| - offset
  {
    hide GetU32;
    if ChunkFits(bytes, offset) {
      var next := offset + 12 + GetU32(bytes, offset);
      var starts := ChunkStarts(bytes, offset);
      HeaderOutcome(bytes, offset, fields);
      if KindAt(bytes, offset) == IEND {
        assert starts == [offset];
      } else {
        var later := ChunkStarts(bytes, next);
        assert starts == [offset] + later;
        RunsOutLater(bytes, offset, next);
        match ReadHeader(bytes, offset + 8, fields)
        case Good(read) =>
          var now := if KindAt(bytes, offset) == IHDR then read else Grown(bytes, offset, fields);
          OutsideIsRunningOut(bytes, next, now);
        case _ => OutsideIsRunningOut(bytes, next, Grown(bytes, offset, fields));
      }
    }
  }

  /** The fields after a chunk that is no header. */
  function Grown(bytes: seq<byte>, offset: nat, fields: Fields): Fields
    requires ChunkFits(bytes, offset)
  {
    if KindAt(bytes, offset) == IDAT then
      fields.(compressed := fields.compressed + bytes[offset + 8..offset + 8 + GetU32(bytes, offset)])
    else fields
  }

  lemma HeaderOutcome(bytes: seq<byte>, offset: nat, fields: Fields)
    ensures ReadHeader(bytes, offset + 8, fields).Outside? <==> HeaderCut(bytes, offset)
    ensures ReadHeader(bytes, offset + 8, fields).Good? <==> HeaderGood(bytes, offset)
  {
  }

  lemma RunsOutLater(bytes: seq<byte>, offset: nat, next: nat)
    requires ChunkFits(bytes, offset) && KindAt(bytes, offset) != IEND && next == offset + 12 + GetU32(bytes, offset)
    ensures RunsOut(bytes, offset) <==>
      if KindAt(bytes, offset) == IHDR then
        HeaderCut(bytes, offset) || (HeaderGood(bytes, offset) && RunsOut(bytes, next))
      else RunsOut(bytes, next)
  {
    hide GetU32, HeaderCut, HeaderGood, CutAt;
    var starts, later := ChunkStarts(bytes, offset), ChunkStarts(bytes, next);
    assert starts == [offset] + later;
    assert CutAt(bytes, starts, 0) <==> KindAt(bytes, offset) == IHDR && HeaderCut(bytes, offset) by {
      CutFirst(bytes, starts);
    }
    forall k: nat | k < |later|
      ensures CutAt(bytes, starts, k + 1) <==>
        CutAt(bytes, later, k) && (KindAt(bytes, offset) == IHDR ==> HeaderGood(bytes, offset))
    {
      CutLater(bytes, starts, later, k);
    }
    if RunsOut(bytes, offset) {
      var k :| 0 <= k < |starts| && CutAt(bytes, starts, k);
      if k > 0 {
        assert CutAt(bytes, later, k - 1);
      }
    }
    var good := KindAt(bytes, offset) == IHDR ==> HeaderGood(bytes, offset);
    if k :| 0 <= k < |later| && CutAt(bytes, later, k) && good {
      assert CutAt(bytes, starts, k + 1);
    }
  }

  lemma CutFirst(bytes: seq<byte>, starts: seq<nat>)
    requires starts != [] && forall i | 0 <= i < |starts| :: ChunkFits(bytes, starts[i])
    ensures CutAt(bytes, starts, 0) <==> KindAt(bytes, starts[0]) == IHDR && HeaderCut(bytes, starts[0])
  {
  }

  lemma CutLater(bytes: seq<byte>, starts: seq<nat>, later: seq<nat>, k: nat)
    requires k < |later| && starts != [] && starts[1..] == later
    requires forall i | 0 <= i < |starts| :: ChunkFits(bytes, starts[i])
    ensures CutAt(bytes, starts, k + 1) <==>
      CutAt(bytes, later, k) && (KindAt(bytes, starts[0]) == IHDR ==> HeaderGood(bytes, starts[0]))
  {
    hide ChunkFits, HeaderGood, HeaderCut, KindAt;
    assert forall j | 0 <= j < |later| :: later[j] == starts[j + 1];
    if CutAt(bytes, starts, k + 1) {
      assert forall j | 0 <= j < k && KindAt(bytes, later[j]) == IHDR :: HeaderGood(bytes, starts[j + 1]);
    }
    if CutAt(bytes, later, k) && (KindAt(bytes, starts[0]) == IHDR ==> HeaderGood(bytes, starts[0])) {
      forall j | 0 <= j < k + 1 && KindAt(bytes, starts[j]) == IHDR ensures HeaderGood(bytes, starts[j]) {
        assert j > 0 ==> starts[j] == later[j - 1];
      }
    }
  }

  /** Only a header chunk of less than nine bytes that starts in the last twenty bytes of
      the file can do that; the standard's headers have thirteen. */
  lemma LongHeadersAreInside(bytes: seq<byte>, offset: nat)
    requires forall start <- ChunkStarts(bytes, offset) :: HeaderInside(bytes, start)
    ensures !RunsOut(bytes, offset)
  {
    var starts := ChunkStarts(bytes, offset);
    forall k | 0 <= k < |starts| ensures !CutAt(bytes, starts, k) {
      assert starts[k] in starts && ChunkFits(bytes, starts[k]) && HeaderInside(bytes, starts[k]);
    }
  }

  predicate HeaderInside(bytes: seq<byte>, start: nat) {
    ChunkFits(bytes, start) && KindAt(bytes, start) == IHDR ==>
      GetU32(bytes, start) >= 9 || start + 20 < |bytes|
  }

  /** The shortest file that does: the signature and the first twelve bytes of an empty
      header chunk. */
  lemma EmptyHeaderIsOutside(crc: seq<byte>)
    requires |crc| == 4
    ensures var bytes := SIGNATURE + [0, 0, 0, 0] + IHDR + crc;
      |bytes| == 20 && RunsOut(bytes, 8) && ParseChunks(bytes, 8, NO_FIELDS).Outside?
  {
    var bytes := SIGNATURE + [0, 0, 0, 0] + IHDR + crc;
    assert bytes[12..16] == IHDR;
    assert GetU32(bytes, 8) == 0;
    assert ChunkStarts(bytes, 8)[0] == 8;
    assert CutAt(bytes, ChunkStarts(bytes, 8), 0);
    OutsideIsRunningOut(bytes, 8, NO_FIELDS);
  }

  /** One chunk's effect on the fields, read off the chunk itself. */
  function Apply(c: Chunk, fields: Fields): Parsed {
    if c.kind == IHDR then ReadHeader(c.data, 0, fields)
    else if c.kind == IDAT then Good(fields.(compressed := fields.compressed + c.data))
    else Good(fields)
  }

  /** What a list of chunks means: each one applied in turn, up to IEND. */
  ghost function Meaning(chunks: seq<Chunk>, fields: Fields): Parsed
    requires ValidChunks(chunks)
  {
    if chunks == [] then Good(fields)
    else
      match Apply(chunks[0], fields)
      case Good(next) => if chunks[0].kind == IEND then Good(next) else Meaning(chunks[1..], next)
      case other => other
  }

  /** bytes continues at the offset with this. */
  ghost predicate ContinuesWith(bytes: seq<byte>, offset: nat, s: seq<byte>) {
    offset <= |bytes| && bytes[offset..] == s
  }

  lemma ChunkInPlace(bytes: seq<byte>, offset: nat, c: Chunk, rest: seq<byte>)
    requires ValidChunk(c) && ContinuesWith(bytes, offset, ChunkBytes(c) + rest)
    ensures var data := offset + 8;
            && data + |c.data| + 4 <= |bytes| && ContinuesWith(bytes, data + |c.data| + 4, rest)
            && GetU32(bytes, offset) == |c.data|
            && bytes[offset + 4..data] == c.kind
            && bytes[data..data + |c.data|] == c.data
  {
    var tail := c.kind + c.data + c.crc + rest;
    assert bytes == bytes[..offset] + PutU32(|c.data|) + tail;
    PutGetU32(|c.data|, bytes[..offset], tail);
    assert bytes[offset + 4..] == tail;
    forall k | 0 <= k <= |tail| ensures bytes[offset + 4 + k..] == tail[k..] {
    }
    assert bytes[offset + 4..offset + 8] == tail[..4];
    assert bytes[offset + 8..offset + 8 + |c.data|] == tail[4..4 + |c.data|];
    assert tail[..4] == c.kind && tail[4..4 + |c.data|] == c.data && tail[8 + |c.data|..] == rest;
  }

  lemma HeaderInPlace(bytes: seq<byte>, offset: nat, data: seq<byte>, fields: Fields)
    requires |data| >= 13 && offset + |data| <= |bytes| && bytes[offset..offset + |data|] == data
    ensures ReadHeader(bytes, offset, fields) == ReadHeader(data, 0, fields)
  {
    assert forall k | 0 <= k < |data| :: bytes[offset + k] == data[k];
  }

  /** The loop takes one chunk off the stream. */
  lemma ParsingOneChunk(bytes: seq<byte>, offset: nat, c: Chunk, rest: seq<byte>, fields: Fields)
    requires ValidChunk(c) && ContinuesWith(bytes, offset, ChunkBytes(c) + rest)
    ensures ContinuesWith(bytes, offset + 12 + |c.data|, rest)
    ensures ParseChunks(bytes, offset, fields)
         == match Apply(c, fields)
            case Good(next) => if c.kind == IEND then Good(next) else ParseChunks(bytes, offset + 12 + |c.data|, next)
            case other => other
  {
    hide ChunkBytes, ReadHeader, GetU32;
    ChunkInPlace(bytes, offset, c, rest);
    if c.kind == IHDR {
      HeaderInPlace(bytes, offset + 8, c.data, fields);
    }
  }

  /** Reading a chunk stream gives the meaning of its chunks, whatever other chunks
      stand between them and whatever bytes follow IEND. */
  lemma {:induction false} ParsingGivesMeaning(bytes: seq<byte>, offset: nat, chunks: seq<Chunk>, after: seq<byte>,
                                               fields: Fields)
    requires ValidChunks(chunks) && ContinuesWith(bytes, offset, ChunksBytes(chunks) + after)
    requires |after| < 12 || (chunks != [] && chunks[|chunks| - 1].kind == IEND)
    ensures ParseChunks(bytes, offset, fields) == Meaning(chunks, fields)
    decreases |chunks|
  {
    hide ChunkBytes, Apply;
    if chunks == [] {
    } else {
      hide ParseChunks;
      var c := chunks[0];
      var rest := ChunksBytes(chunks[1..]) + after;
      assert ChunksBytes(chunks) + after == ChunkBytes(c) + rest;
      ParsingOneChunk(bytes, offset, c, rest, fields);
      var applied := Apply(c, fields);
      if applied.Good? && c.kind != IEND {
        ParsingGivesMeaning(bytes, offset + 12 + |c.data|, chunks[1..], after, applied.fields);
      }
    }
  }

  // ----- Files ---------------------------------------------------------------------------

  /** The compression library, as far as the programs use it. */
  datatype Zlib = Zlib(deflate: seq<byte> -> seq<byte>, inflate: seq<byte> -> Option<seq<byte>>,
                       crc32: seq<byte> -> nat)

  /** inflate undoes deflate, whose output is never empty and, for pictures of the
      size of tiles, fits a chunk. */
  ghost predicate Faithful(z: Zlib) {
    && (forall s :: z.inflate(z.deflate(s)) == Some(s) && z.deflate(s) != [])
    && (forall s :: |s| <= (4 * TILE + 1) * TILE ==> |z.deflate(s)| < U32_SIZE)
    && (forall s :: z.crc32(s) < U32_SIZE)
  }

  function MakeChunk(kind: seq<byte>, data: seq<byte>, z: Zlib): Chunk {
    Chunk(kind, data, PutU32(z.crc32(kind + data) % U32_SIZE))
  }

  function HeaderData(width: nat, height: nat, colorType: byte): seq<byte>
    requires width < U32_SIZE && height < U32_SIZE
  {
    PutU32(width) + PutU32(height) + [8, colorType, 0, 0, 0]
  }

  /** The chunks of a picture file whose compressed data is cut into parts. */
  function FileChunks(width: nat, height: nat, colorType: byte, parts: seq<seq<byte>>, z: Zlib): seq<Chunk>
    requires width < U32_SIZE && height < U32_SIZE
  {
    [MakeChunk(IHDR, HeaderData(width, height, colorType), z)] + DataChunks(parts, z)
  }

  /** The data chunks and the end chunk. */
  function DataChunks(parts: seq<seq<byte>>, z: Zlib): seq<Chunk> {
    seq(|parts|, i requires 0 <= i < |parts| => MakeChunk(IDAT, parts[i], z)) + [MakeChunk(IEND, [], z)]
  }

  lemma HeaderReads(width: nat, height: nat, colorType: byte, fields: Fields)
    requires width < U32_SIZE && height < U32_SIZE && colorType in {2, 6}
    ensures ReadHeader(HeaderData(width, height, colorType), 0, fields)
         == Good(Fields(ToInt32(width), ToInt32(height), colorType, fields.compressed))
  {
    var tail := [8, colorType, 0, 0, 0];
    assert HeaderData(width, height, colorType) == [] + PutU32(width) + (PutU32(height) + tail);
    PutGetU32(width, [], PutU32(height) + tail);
    PutGetU32(height, PutU32(width), tail);
  }

  /** A header is taken exactly for 8-bit RGB or RGBA without interlacing, whatever its
      compression and filter methods say. */
  lemma HeaderTaken(width: nat, height: nat, depth: byte, color: byte, compression: byte, filter: byte, interlace: byte,
                    fields: Fields)
    requires width < 0x8000_0000 && height < 0x8000_0000
    ensures ReadHeader(PutU32(width) + PutU32(height) + [depth, color, compression, filter, interlace], 0, fields)
      == if depth == 8 && (color == 2 || color == 6) && interlace == 0
         then Good(Fields(width, height, color, fields.compressed)) else Bad
  {
    var tail := [depth, color, compression, filter, interlace];
    assert PutU32(width) + PutU32(height) + tail == [] + PutU32(width) + (PutU32(height) + tail);
    PutGetU32(width, [], PutU32(height) + tail);
    PutGetU32(height, PutU32(width), tail);
  }

  lemma {:induction false} DataPartsJoin(parts: seq<seq<byte>>, z: Zlib, fields: Fields)
    requires forall i | 0 <= i < |parts| :: |parts[i]| < U32_SIZE
    ensures ValidChunks(DataChunks(parts, z))
    ensures Meaning(DataChunks(parts, z), fields) == Good(fields.(compressed := fields.compressed + Concat(parts)))
  {
    var chunks := DataChunks(parts, z);
    if parts == [] {
      assert fields.compressed + [] == fields.compressed;
    } else {
      var rest := parts[1..];
      assert chunks[1..] == DataChunks(rest, z);
      DataPartsJoin(rest, z, fields.(compressed := fields.compressed + parts[0]));
      assert fields.compressed + Concat(parts) == (fields.compressed + parts[0]) + Concat(rest);
    }
  }

  /** Where the compressed data is cut into IDAT chunks makes no difference. */
  lemma SplitDataJoins(width: nat, height: nat, colorType: byte, parts: seq<seq<byte>>, z: Zlib, after: seq<byte>)
    requires width < 0x8000_0000 && height < 0x8000_0000 && colorType in {2, 6}
    requires forall i | 0 <= i < |parts| :: |parts[i]| < U32_SIZE
    ensures ValidChunks(FileChunks(width, height, colorType, parts, z))
    ensures ParseChunks(SIGNATURE + ChunksBytes(FileChunks(width, height, colorType, parts, z)) + after, 8, NO_FIELDS)
         == Good(Fields(width, height, colorType, Concat(parts)))
  {
    hide ReadHeader, HeaderData;
    var chunks := FileChunks(width, height, colorType, parts, z);
    var header := Fields(width, height, colorType, []);
    HeaderReads(width, height, colorType, NO_FIELDS);
    HeaderLength(width, height, colorType);
    DataPartsJoin(parts, z, header);
    assert [] + Concat(parts) == Concat(parts);
    assert chunks[1..] == DataChunks(parts, z);
    ValidPrepend(chunks);
    assert Apply(chunks[0], NO_FIELDS) == Good(header);
    var bytes := SIGNATURE + ChunksBytes(chunks) + after;
    assert bytes[8..] == ChunksBytes(chunks) + after;
    ParsingGivesMeaning(bytes, 8, chunks, after, NO_FIELDS);
  }

  lemma HeaderLength(width: nat, height: nat, colorType: byte)
    requires width < U32_SIZE && height < U32_SIZE
    ensures |HeaderData(width, height, colorType)| == 13
  {
  }

  lemma ValidPrepend(chunks: seq<Chunk>)
    requires chunks != [] && ValidChunk(chunks[0]) && ValidChunks(chunks[1..])
    ensures ValidChunks(chunks)
  {
    forall i | 0 <= i < |chunks| ensures ValidChunk(chunks[i]) {
      assert i > 0 ==> chunks[i] == chunks[1..][i - 1];
    }
  }

  /** write_png: every row gets filter 0. */
  method WritePng(width: nat, height: nat, rgb: seq<byte>, z: Zlib) returns (payload: seq<byte>)
    requires 0 < width < U32_SIZE && height < U32_SIZE && |rgb| == width * 3 * height
    requires |z.deflate(ScanLines(rgb, width * 3, height))| < U32_SIZE
    ensures Encodes(ScanLines(rgb, width * 3, height), rgb, width * 3, 3, height)
    ensures var chunks := FileChunks(width, height, 2, [z.deflate(ScanLines(rgb, width * 3, height))], z);
            ValidChunks(chunks) && payload == SIGNATURE + ChunksBytes(chunks)
    // The file byte by byte; each chunk's CRC is over its type and its data.
    ensures var header := [73, 72, 68, 82] + PutU32(width) + PutU32(height) + [8, 2, 0, 0, 0];
      var compressed := z.deflate(ScanLines(rgb, width * 3, height));
      var data := [73, 68, 65, 84] + compressed;
      var end := [73, 69, 78, 68];
      payload == [137, 80, 78, 71, 13, 10, 26, 10]
        + ([0, 0, 0, 13] + header + PutU32(z.crc32(header) % 0x1_0000_0000))
        + (PutU32(|compressed|) + data + PutU32(z.crc32(data) % 0x1_0000_0000))
        + ([0, 0, 0, 0] + end + PutU32(z.crc32(end) % 0x1_0000_0000))
  {
    hide ChunkBytes, ChunksBytes, Encodes, HeaderData, ValidChunks;
    HeaderLength(width, height, 2);
    var lines := PlainRows(width * 3, height, rgb);
    var ihdr := MakeChunk(IHDR, HeaderData(width, height, 2), z);
    var idat := MakeChunk(IDAT, z.deflate(lines), z);
    var iend := MakeChunk(IEND, [], z);
    FileOfThree(width, height, z.deflate(lines), z);
    hide FileChunks, ScanLines, MakeChunk;
    payload := SIGNATURE;
    payload := payload + ChunkBytes(ihdr);
    payload := payload + ChunkBytes(idat);
    payload := payload + ChunkBytes(iend);
    assert payload == SIGNATURE + (ChunkBytes(ihdr) + ChunkBytes(idat) + ChunkBytes(iend));
    HeaderBytes(width, height, z);
    DataBytes(z.deflate(lines), z);
    EndBytes(z);
    hide PutU32;
  }

  /** The rows of write_png, each after a zero byte. */
  method PlainRows(stride: nat, height: nat, rgb: seq<byte>) returns (lines: seq<byte>)
    requires |rgb| == stride * height
    ensures lines == ScanLines(rgb, stride, height) && Encodes(lines, rgb, stride, 3, height)
  {
    hide Encodes;
    lines := [];
    for y := 0 to height
      invariant lines == ScanLines(rgb, stride, y)
    {
      RowsGrow(y, height, stride);
      lines := lines + [0] + rgb[y * stride..(y + 1) * stride];
    }
    ScanLinesEncode(rgb, stride, height);
  }

  lemma FileOfThree(width: nat, height: nat, compressed: seq<byte>, z: Zlib)
    requires width < U32_SIZE && height < U32_SIZE && |compressed| < U32_SIZE
    ensures var ihdr, idat, iend :=
        MakeChunk(IHDR, HeaderData(width, height, 2), z), MakeChunk(IDAT, compressed, z), MakeChunk(IEND, [], z);
      && ValidChunk(ihdr) && ValidChunk(idat) && ValidChunk(iend)
      && ValidChunks(FileChunks(width, height, 2, [compressed], z))
      && ChunksBytes(FileChunks(width, height, 2, [compressed], z))
           == ChunkBytes(ihdr) + ChunkBytes(idat) + ChunkBytes(iend)
  {
    hide ChunkBytes, ChunksBytes, HeaderData, ValidChunks;
    HeaderLength(width, height, 2);
    var ihdr, idat, iend :=
      MakeChunk(IHDR, HeaderData(width, height, 2), z), MakeChunk(IDAT, compressed, z), MakeChunk(IEND, [], z);
    assert FileChunks(width, height, 2, [compressed], z) == [ihdr, idat, iend];
    ThreeChunks(ihdr, idat, iend);
  }

  lemma HeaderBytes(width: nat, height: nat, z: Zlib)
    requires width < U32_SIZE && height < U32_SIZE
    ensures var header := [73, 72, 68, 82] + PutU32(width) + PutU32(height) + [8, 2, 0, 0, 0];
      |HeaderData(width, height, 2)| == 13
      && ChunkBytes(MakeChunk(IHDR, HeaderData(width, height, 2), z))
           == [0, 0, 0, 13] + header + PutU32(z.crc32(header) % 0x1_0000_0000)
  {
    var header := [73, 72, 68, 82] + PutU32(width) + PutU32(height) + [8, 2, 0, 0, 0];
    assert IHDR + HeaderData(width, height, 2) == header;
    assert PutU32(13) == [0, 0, 0, 13];
  }

  lemma DataBytes(compressed: seq<byte>, z: Zlib)
    requires |compressed| < U32_SIZE
    ensures var data := [73, 68, 65, 84] + compressed;
      ChunkBytes(MakeChunk(IDAT, compressed, z))
        == PutU32(|compressed|) + data + PutU32(z.crc32(data) % 0x1_0000_0000)
  {
  }

  lemma EndBytes(z: Zlib)
    ensures var end := [73, 69, 78, 68];
      ChunkBytes(MakeChunk(IEND, [], z)) == [0, 0, 0, 0] + end + PutU32(z.crc32(end) % 0x1_0000_0000)
  {
    assert IEND + [] == IEND;
    assert PutU32(0) == [0, 0, 0, 0];
  }

  lemma ThreeChunks(a: Chunk, b: Chunk, c: Chunk)
    requires ValidChunk(a) && ValidChunk(b) && ValidChunk(c)
    ensures ValidChunks([a, b, c]) && ChunksBytes([a, b, c]) == ChunkBytes(a) + ChunkBytes(b) + ChunkBytes(c)
  {
    hide ChunkBytes;
    assert [a, b, c][1..] == [b, c] && [b, c][1..] == [c] && [c][1..] == [];
    assert ValidChunks([b, c]) && ValidChunks([c]);
    assert ChunksBytes([c]) == ChunkBytes(c) + [];
    assert ChunksBytes([b, c]) == ChunkBytes(b) + ChunksBytes([c]);
  }

  /** The first rows of a picture, each after a zero byte. */
  function ScanLines(rgb: seq<byte>, stride: nat, rows: nat): seq<byte>
    requires rows * stride <= |rgb|
  {
    if rows == 0 then []
    else
      RowsGrow(rows - 1, rows, stride);
      ScanLines(rgb, stride, rows - 1) + [0] + rgb[(rows - 1) * stride..rows * stride]
  }

  lemma {:induction false} ScanLineAt(rgb: seq<byte>, stride: nat, rows: nat, y: nat, c: nat)
    requires rows * stride <= |rgb| && c <= stride
    ensures |ScanLines(rgb, stride, rows)| == rows * (stride + 1)
    ensures y < rows ==>
      Get(ScanLines(rgb, stride, rows), y * (stride + 1) + c) == if c == 0 then 0 else Get(rgb, y * stride + c - 1)
    decreases rows
  {
    if rows > 0 {
      var before := ScanLines(rgb, stride, rows - 1);
      var last := [0] + rgb[(rows - 1) * stride..rows * stride];
      RowsGrow(rows - 1, rows, stride);
      RowsGrow(rows - 1, rows, stride + 1);
      ScanLineAt(rgb, stride, rows - 1, y, c);
      assert ScanLines(rgb, stride, rows) == before + last;
      if y < rows - 1 {
        RowsGrow(y, rows - 1, stride + 1);
      }
    }
  }

  lemma ScanLinesAt(rgb: seq<byte>, stride: nat, rows: nat)
    requires rows * stride <= |rgb|
    ensures |ScanLines(rgb, stride, rows)| == rows * (stride + 1)
    ensures forall y: nat | y < rows :: FilterOf(ScanLines(rgb, stride, rows), stride, y) == 0
    ensures forall y: nat, x: nat | y < rows && x < stride ::
      FilteredByte(ScanLines(rgb, stride, rows), stride, y, x) == Get(rgb, y * stride + x)
  {
    hide ScanLines, Get;
    var lines := ScanLines(rgb, stride, rows);
    ScanLineAt(rgb, stride, rows, 0, 0);
    forall y: nat | y < rows ensures FilterOf(lines, stride, y) == 0 {
      ScanLineAt(rgb, stride, rows, y, 0);
    }
    forall y: nat, x: nat | y < rows && x < stride
      ensures FilteredByte(lines, stride, y, x) == Get(rgb, y * stride + x)
    {
      ScanLineAt(rgb, stride, rows, y, x + 1);
    }
  }

  lemma ScanLinesEncode(rgb: seq<byte>, stride: nat, height: nat)
    requires |rgb| == stride * height
    ensures Encodes(ScanLines(rgb, stride, height), rgb, stride, 3, height)
  {
    hide ScanLines;
    ScanLinesAt(rgb, stride, height);
  }

  // ----- The decoder -----------------------------------------------------------------------

  /** decode_png's answer; OutOfBounds is a read past the end of the input. */
  datatype Decoded = Pixels(argb: seq<nat>) | Rejected | OutOfBounds

  lemma FourBytesApart(a: byte, r: byte, g: byte, b: byte)
    ensures var v := a as int * 0x100_0000 + r as int * 0x1_0000 + g as int * 0x100 + b as int;
      v / 0x100_0000 == a as int && v / 0x1_0000 % 256 == r as int && v / 0x100 % 256 == g as int && v % 256 == b as int
  {
    var v := a as int * 0x100_0000 + r as int * 0x1_0000 + g as int * 0x100 + b as int;
    var one := a as int * 0x1_0000 + r as int * 0x100 + g as int;
    var two := a as int * 0x100 + r as int;
    assert v == one * 0x100 + b as int && v / 0x100 == one && v % 0x100 == b as int;
    assert one == two * 0x100 + g as int && one / 0x100 == two && one % 0x100 == g as int;
    assert v / 0x1_0000 == two && two / 0x100 == a as int && two % 0x100 == r as int;
    assert v / 0x100_0000 == a as int;
  }

  /** Alpha in the top byte, then red, green and blue. */
  function Argb(alpha: byte, red: byte, green: byte, blue: byte): (v: nat)
    ensures v / 0x100_0000 == alpha as int && v / 0x1_0000 % 256 == red as int
    ensures v / 0x100 % 256 == green as int && v % 256 == blue as int
  {
    FourBytesApart(alpha, red, green, blue);
    alpha as int * 0x100_0000 + red as int * 0x1_0000 + green as int * 0x100 + blue as int
  }

  function ArgbAt(raw: seq<byte>, channels: nat, i: nat): nat {
    var base := i * channels;
    Argb(if channels == 4 then Get(raw, base + 3) else 0xff, Get(raw, base), Get(raw, base + 1), Get(raw, base + 2))
  }

  lemma PixelBytes(raw: seq<byte>, channels: nat, i: nat)
    requires channels in {3, 4} && |raw| == TILE * channels * TILE && i < TILE * TILE
    ensures var v := ArgbAt(raw, channels, i);
      && v / 0x100_0000 == (if channels == 4 then Get(raw, 4 * i + 3) as int else 0xff)
      && v / 0x1_0000 % 256 == Get(raw, channels * i) as int
      && v / 0x100 % 256 == Get(raw, channels * i + 1) as int
      && v % 256 == Get(raw, channels * i + 2) as int
  {
    hide Get, Argb;
    assert i * channels == channels * i;
  }

  function Channels(fields: Fields): nat { if fields.colorType == 6 then 4 else 3 }

  /** The header and data of a tile the decoder takes: what is inflated. */
  function TileData(fields: Fields, z: Zlib): Option<seq<byte>> {
    if fields.width != TILE || fields.height != TILE || fields.compressed == [] then None
    else
      var inflated := z.inflate(fields.compressed);
      if inflated.Some? && |inflated.value| == (TILE * Channels(fields) + 1) * TILE then inflated else None
  }

  /** The chunk loop. */
  method ReadChunks(bytes: seq<byte>) returns (parsed: Parsed)
    ensures parsed == ParseChunks(bytes, 8, NO_FIELDS)
  {
    hide ReadHeader, GetU32;
    var fields := NO_FIELDS;
    var offset := 8;
    while offset + 12 <= |bytes|
      invariant ParseChunks(bytes, 8, NO_FIELDS) == ParseChunks(bytes, offset, fields)
      decreases |bytes| - offset
    {
      var length := GetU32(bytes, offset);
      offset := offset + 4;
      if offset + 8 + length > |bytes| {
        return Bad;
      }
      var kind := bytes[offset..offset + 4];
      offset := offset + 4;
      if kind == IHDR {
        var read := ReadHeader(bytes, offset, fields);
        if !read.Good? {
          return read;
        }
        fields := read.fields;
      } else if kind == IDAT {
        fields := fields.(compressed := fields.compressed + bytes[offset..offset + length]);
      }
      offset := offset + length + 4;
      if kind == IEND {
        return Good(fields);
      }
    }
    return Good(fields);
  }

  /** Every pixel's four bytes are those of the picture; without an alpha channel it is opaque. */
  ghost predicate ShowsRaw(argb: seq<nat>, raw: seq<byte>, channels: nat) {
    && |argb| == TILE * TILE
    && forall i | 0 <= i < TILE * TILE ::
         && argb[i] / 0x100_0000 == (if channels == 4 then Get(raw, 4 * i + 3) as int else 0xff)
         && argb[i] / 0x1_0000 % 256 == Get(raw, channels * i) as int
         && argb[i] / 0x100 % 256 == Get(raw, channels * i + 1) as int
         && argb[i] % 256 == Get(raw, channels * i + 2) as int
  }

  lemma ShowsAll(argb: seq<nat>, raw: seq<byte>, channels: nat)
    requires channels in {3, 4} && |raw| == TILE * channels * TILE && |argb| == TILE * TILE
    requires forall i | 0 <= i < TILE * TILE :: argb[i] == ArgbAt(raw, channels, i)
    ensures ShowsRaw(argb, raw, channels)
  {
    hide ArgbAt, Get;
    forall i | 0 <= i < TILE * TILE
      ensures argb[i] / 0x100_0000 == (if channels == 4 then Get(raw, 4 * i + 3) as int else 0xff)
      ensures argb[i] / 0x1_0000 % 256 == Get(raw, channels * i) as int
      ensures argb[i] / 0x100 % 256 == Get(raw, channels * i + 1) as int
      ensures argb[i] % 256 == Get(raw, channels * i + 2) as int
    {
      PixelBytes(raw, channels, i);
    }
  }

  method ToPixels(raw: seq<byte>, channels: nat) returns (argb: seq<nat>)
    requires channels in {3, 4} && |raw| == TILE * channels * TILE
    ensures |argb| == TILE * TILE
    ensures forall i | 0 <= i < TILE * TILE :: argb[i] == ArgbAt(raw, channels, i)
    ensures ShowsRaw(argb, raw, channels)
  {
    var pixels := new nat[TILE * TILE];
    for i := 0 to TILE * TILE
      invariant forall k | 0 <= k < i :: pixels[k] == ArgbAt(raw, channels, k)
    {
      var base := i * channels;
      var alpha := if channels == 4 then raw[base + 3] else 0xff;
      pixels[i] := Argb(alpha, raw[base], raw[base + 1], raw[base + 2]);
    }
    argb := pixels[..];
    ShowsAll(argb, raw, channels);
  }

  method DecodePng(bytes: seq<byte>, z: Zlib) returns (decoded: Decoded)
    ensures |bytes| < 8 || bytes[..8] != SIGNATURE ==> decoded == Rejected
    ensures decoded == OutOfBounds <==> |bytes| >= 8 && bytes[..8] == SIGNATURE && RunsOut(bytes, 8)
    ensures |bytes| >= 8 && bytes[..8] == SIGNATURE ==>
      match ParseChunks(bytes, 8, NO_FIELDS)
      case Bad => decoded == Rejected
      case Outside => decoded == OutOfBounds
      case Good(fields) =>
        var data, channels := z.inflate(fields.compressed), if fields.colorType == 6 then 4 else 3;
        if || fields.width != 256 || fields.height != 256 || fields.compressed == []
           || data.None? || |data.value| != (256 * channels + 1) * 256 || !ValidFilters(data.value, 256 * channels, 256)
        then decoded == Rejected
        else
          && decoded.Pixels? && |decoded.argb| == 256 * 256
          && exists raw ::
               Encodes(data.value, raw, 256 * channels, channels, 256) && ShowsRaw(decoded.argb, raw, channels)
  {
    hide ParseChunks, ValidFilters, Encodes, ArgbAt, ShowsRaw, RunsOut;
    OutsideIsRunningOut(bytes, 8, NO_FIELDS);
    if |bytes| < 8 || bytes[..8] != SIGNATURE {
      return Rejected;
    }
    var parsed := ReadChunks(bytes);
    if parsed.Bad? {
      return Rejected;
    }
    if parsed.Outside? {
      return OutOfBounds;
    }
    var data, channels := TileData(parsed.fields, z), Channels(parsed.fields);
    if data.None? {
      return Rejected;
    }
    var ok, raw := Unfilter(data.value, TILE * channels, channels, TILE);
    if !ok {
      return Rejected;
    }
    EncodesLength(data.value, raw[..], TILE * channels, channels, TILE);
    var argb := ToPixels(raw[..], channels);
    assert ShowsRaw(argb, raw[..], channels);
    return Pixels(argb);
  }

  lemma EncodesLength(filtered: seq<byte>, raw: seq<byte>, stride: nat, channels: nat, height: nat)
    requires Encodes(filtered, raw, stride, channels, height)
    ensures |raw| == stride * height && |filtered| == (stride + 1) * height && ValidFilters(filtered, stride, height)
  {
  }

  /** A tile picture of either color type, filtered in any way and its compressed data
      cut into any IDAT chunks, decodes to its own pixels. */
  method TileRoundTrip(picture: seq<byte>, channels: nat, filtered: seq<byte>, parts: seq<seq<byte>>, z: Zlib)
    returns (decoded: Decoded)
    requires Faithful(z) && channels in {3, 4} && Encodes(filtered, picture, TILE * channels, channels, TILE)
    requires Concat(parts) == z.deflate(filtered) && forall i | 0 <= i < |parts| :: |parts[i]| < U32_SIZE
    ensures decoded.Pixels? && |decoded.argb| == TILE * TILE
    ensures |picture| == 256 * channels * 256
    // Pixel i is bytes 3 * i, or 4 * i, and the next of the picture: red, green, blue, alpha.
    ensures forall i | 0 <= i < 256 * 256 ::
      && decoded.argb[i] / 0x100_0000 == (if channels == 4 then Get(picture, 4 * i + 3) as int else 0xff)
      && decoded.argb[i] / 0x1_0000 % 256 == Get(picture, channels * i) as int
      && decoded.argb[i] / 0x100 % 256 == Get(picture, channels * i + 1) as int
      && decoded.argb[i] % 256 == Get(picture, channels * i + 2) as int
  {
    hide Encodes, ParseChunks, ChunksBytes, FileChunks;
    var colorType: byte := if channels == 4 then 6 else 2;
    SplitDataJoins(TILE, TILE, colorType, parts, z, []);
    var file := SIGNATURE + ChunksBytes(FileChunks(TILE, TILE, colorType, parts, z));
    assert file + [] == file;
    assert Channels(Fields(TILE, TILE, colorType, Concat(parts))) == channels;
    decoded := DecodePng(file, z);
    EncodesLength(filtered, picture, TILE * channels, channels, TILE);
    DecodesTo(filtered, picture, channels, decoded);
  }

  lemma DecodesTo(filtered: seq<byte>, picture: seq<byte>, channels: nat, decoded: Decoded)
    requires channels in {3, 4} && Encodes(filtered, picture, TILE * channels, channels, TILE)
    requires decoded.Pixels? && |decoded.argb| == TILE * TILE
    requires exists raw ::
      Encodes(filtered, raw, TILE * channels, channels, TILE) && ShowsRaw(decoded.argb, raw, channels)
    ensures ShowsRaw(decoded.argb, picture, channels)
  {
    var raw :| Encodes(filtered, raw, TILE * channels, channels, TILE) && ShowsRaw(decoded.argb, raw, channels);
    hide Encodes, ShowsRaw;
    EncodesOne(filtered, picture, raw, TILE * channels, channels, TILE, TILE, 0);
    EncodesLength(filtered, picture, TILE * channels, channels, TILE);
    EncodesLength(filtered, raw, TILE * channels, channels, TILE);
    assert picture[..|picture|] == picture && raw[..|raw|] == raw;
    assert raw == picture;
  }
}
