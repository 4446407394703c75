// MAVLink framing on the wire: the datagram parser, the incremental stream
// parser behind the TCP transport, and the two packet senders they undo.
module MavlinkFraming {
  import opened Bytes
  import opened MavlinkCrc

  datatype Frame = Frame(sysid: byte, compid: byte, msgid: nat, payload: seq<byte>)

  const STX_V1: byte := 0xfe
  const STX_V2: byte := 0xfd
  const NO_FLAGS: byte := 0

  /** One byte less than the longest frame: version 2, signed, 255-byte payload. */
  const MAX_RETAINED: nat := 279

  predicate IsStart(b: byte) { b == STX_V1 || b == STX_V2 }

  function HeaderLen(first: byte): nat { if first == STX_V2 then 10 else 6 }

  /** Can the length of the frame at the front of s be read yet? */
  predicate HasHeader(s: seq<byte>) {
    s != [] && IsStart(s[0]) && HeaderLen(s[0]) + 2 <= |s|
  }

  /** "MAVLink 1/2 Packet Format": header, payload, checksum, optional signature. */
  function FrameLen(s: seq<byte>): (n: nat)
    requires HasHeader(s)
    ensures n >= HeaderLen(s[0]) + 2
  {
    HeaderLen(s[0]) + s[1] + 2 + (if s[0] == STX_V2 && s[2] % 2 == 1 then 13 else 0)
  }

  predicate StartsWithFrame(s: seq<byte>) {
    HasHeader(s) && FrameLen(s) <= |s|
  }

  predicate IsFrame(s: seq<byte>) {
    StartsWithFrame(s) && FrameLen(s) == |s|
  }

  function FrameAt(s: seq<byte>): Frame
    requires StartsWithFrame(s)
  {
    if s[0] == STX_V2 then
      Frame(s[5], s[6], s[7] as int + s[8] as int * 256 + s[9] as int * 0x1_0000, s[10..10 + s[1]])
    else
      Frame(s[3], s[4], s[5], s[6..6 + s[1]])
  }

  // ----- Frames as the guide lays them out ---------------------------------------------

  /** Version 2: ten bytes of header, the payload, the checksum and, if the first
      incompatibility flag is set, thirteen bytes of signature. */
  function Layout2(incompat: byte, compat: byte, sequence: byte, sysid: byte, compid: byte, msgid: nat,
                   payload: seq<byte>, checksum: seq<byte>, signature: seq<byte>): seq<byte>
    requires |payload| <= 255
  {
    [0xfd, |payload|, incompat, compat, sequence, sysid, compid, msgid % 256, msgid / 256 % 256, msgid / 0x1_0000 % 256]
    + payload + checksum + signature
  }

  function Layout1(sequence: byte, sysid: byte, compid: byte, msgid: byte, payload: seq<byte>,
                   checksum: seq<byte>): seq<byte>
    requires |payload| <= 255
  {
    [0xfe, |payload|, sequence, sysid, compid, msgid] + payload + checksum
  }

  lemma Layout2IsFrame(incompat: byte, compat: byte, sequence: byte, sysid: byte, compid: byte, msgid: nat,
                       payload: seq<byte>, checksum: seq<byte>, signature: seq<byte>)
    requires |payload| <= 255 && msgid < 0x100_0000 && |checksum| == 2
    requires |signature| == if incompat % 2 == 1 then 13 else 0
    ensures var s := Layout2(incompat, compat, sequence, sysid, compid, msgid, payload, checksum, signature);
      IsFrame(s) && FrameAt(s) == Frame(sysid, compid, msgid, payload)
  {
    var s := Layout2(incompat, compat, sequence, sysid, compid, msgid, payload, checksum, signature);
    assert s[10..10 + |payload|] == payload;
    IdBytes(msgid);
  }

  lemma Layout1IsFrame(sequence: byte, sysid: byte, compid: byte, msgid: byte, payload: seq<byte>, checksum: seq<byte>)
    requires |payload| <= 255 && |checksum| == 2
    ensures var s := Layout1(sequence, sysid, compid, msgid, payload, checksum);
      IsFrame(s) && FrameAt(s) == Frame(sysid, compid, msgid as int, payload)
  {
    var s := Layout1(sequence, sysid, compid, msgid, payload, checksum);
    assert s[6..6 + |payload|] == payload;
  }

  /** Every frame the parsers take is laid out in one of the two ways. */
  lemma FramesAreLaidOut1(s: seq<byte>)
    requires IsFrame(s) && s[0] == 0xfe
    ensures |s| >= 8 && 6 + s[1] as int + 2 == |s|
    ensures var end := 6 + s[1] as int;
      s == Layout1(s[2], s[3], s[4], s[5], s[6..end], s[end..])
        && FrameAt(s) == Frame(s[3], s[4], s[5] as int, s[6..end])
  {
    var end := 6 + s[1] as int;
    assert s == s[..6] + s[6..end] + s[end..];
    assert s[..6] == [0xfe, s[1], s[2], s[3], s[4], s[5]];
  }

  lemma FramesAreLaidOut2(s: seq<byte>)
    requires IsFrame(s) && s[0] != 0xfe
    ensures s[0] == 0xfd && |s| >= 12 && |s| == 10 + s[1] as int + 2 + (if s[2] % 2 == 1 then 13 else 0)
    ensures var end, msgid := 10 + s[1] as int, s[7] as int + s[8] as int * 256 + s[9] as int * 0x1_0000;
      && s == Layout2(s[2], s[3], s[4], s[5], s[6], msgid, s[10..end], s[end..end + 2], s[end + 2..])
      && FrameAt(s) == Frame(s[5], s[6], msgid, s[10..end])
  {
    var end, msgid := 10 + s[1] as int, s[7] as int + s[8] as int * 256 + s[9] as int * 0x1_0000;
    ThreeBytes(s[7], s[8], s[9]);
    var head := [0xfd, s[1], s[2], s[3], s[4], s[5], s[6], s[7], s[8], s[9]];
    assert s[..10] == head;
    CutInFour(s, 10, end, end + 2);
  }

  lemma ThreeBytes(a: byte, b: byte, c: byte)
    ensures var v := a as int + b as int * 256 + c as int * 0x1_0000;
      v % 256 == a as int && v / 256 % 256 == b as int && v / 0x1_0000 % 256 == c as int
  {
    var v := a as int + b as int * 256 + c as int * 0x1_0000;
    assert v / 256 == b as int + c as int * 256 && v / 0x1_0000 == v / 256 / 256;
  }

  lemma CutInFour(s: seq<byte>, i: nat, j: nat, k: nat)
    requires i <= j <= k <= |s|
    ensures s == s[..i] + s[i..j] + s[j..k] + s[k..]
  {
  }

  // ----- What a byte string contains -------------------------------------------

  /** A wire image read as frames with skipped bytes between them. */
  datatype Segment = Skipped(b: byte) | Whole(bytes: seq<byte>)

  ghost predicate ValidSegments(segments: seq<Segment>) {
    forall g <- segments :: if g.Skipped? then !IsStart(g.b) else IsFrame(g.bytes)
  }

  function BytesOf(g: Segment): seq<byte> { if g.Skipped? then [g.b] else g.bytes }

  function Wire(segments: seq<Segment>): seq<byte> {
    if segments == [] then [] else BytesOf(segments[0]) + Wire(segments[1..])
  }

  ghost function FramesOf(segments: seq<Segment>): (fs: seq<Frame>)
    requires ValidSegments(segments)
  {
    if segments == [] then []
    else if segments[0].Skipped? then FramesOf(segments[1..])
    else [FrameAt(segments[0].bytes)] + FramesOf(segments[1..])
  }

  /** Nothing more can be read off the front until further bytes arrive. */
  predicate Stuck(rest: seq<byte>) {
    rest == [] || (IsStart(rest[0]) && !StartsWithFrame(rest))
  }

  datatype Scanned = Scanned(frames: seq<Frame>, rest: seq<byte>)

  /** The frames at the front of s and what stays unread behind them. */
  function Scan(s: seq<byte>): (r: Scanned)
    decreases |s|
  {
    if s == [] then Scanned([], [])
    else if !IsStart(s[0]) then Scan(s[1..])
    else if !StartsWithFrame(s) then Scanned([], s)
    else
      var tail := Scan(s[FrameLen(s)..]);
      Scanned([FrameAt(s)] + tail.frames, tail.rest)
  }

  lemma FrameIsStable(s: seq<byte>, t: seq<byte>)
    requires StartsWithFrame(s)
    ensures StartsWithFrame(s + t) && FrameLen(s + t) == FrameLen(s) && FrameAt(s + t) == FrameAt(s)
  {
    assert forall k | 0 <= k < |s| :: (s + t)[k] == s[k];
    if s[0] == STX_V2 {
      assert (s + t)[10..10 + s[1]] == s[10..10 + s[1]];
    } else {
      assert (s + t)[6..6 + s[1]] == s[6..6 + s[1]];
    }
  }

  lemma FrameIsItsBytes(s: seq<byte>)
    requires StartsWithFrame(s)
    ensures IsFrame(s[..FrameLen(s)]) && FrameAt(s[..FrameLen(s)]) == FrameAt(s)
  {
    var f := s[..FrameLen(s)];
    assert f[0] == s[0] && f[1] == s[1] && f[2] == s[2];
    assert IsFrame(f);
    FrameIsStable(f, s[FrameLen(s)..]);
    assert s == f + s[FrameLen(s)..];
  }

  /** Every reading of a string as skipped bytes, whole frames and an unreadable
      rest is the reading the parser finds: the frames are determined by the
      bytes alone. */
  lemma {:induction false} ScanIsTheReading(segments: seq<Segment>, rest: seq<byte>)
    requires ValidSegments(segments) && Stuck(rest)
    ensures Scan(Wire(segments) + rest) == Scanned(FramesOf(segments), rest)
    decreases |segments|
  {
    hide Scan, FrameAt, FrameLen, IsFrame;
    var s := Wire(segments) + rest;
    if segments == [] {
      assert s == rest;
      ScanStops(s);
    } else {
      var tail := Wire(segments[1..]) + rest;
      ScanIsTheReading(segments[1..], rest);
      assert segments[0] in segments;
      assert s == BytesOf(segments[0]) + tail;
      match segments[0]
      case Skipped(b) => ScanSkipped(b, tail);
      case Whole(bytes) => ScanWhole(bytes, tail);
    }
  }

  lemma ScanSkipped(b: byte, tail: seq<byte>)
    requires !IsStart(b)
    ensures Scan([b] + tail) == Scan(tail)
  {
    assert ([b] + tail)[1..] == tail;
  }

  lemma ScanWhole(bytes: seq<byte>, tail: seq<byte>)
    requires IsFrame(bytes)
    ensures Scan(bytes + tail) == Scanned([FrameAt(bytes)] + Scan(tail).frames, Scan(tail).rest)
  {
    FrameIsStable(bytes, tail);
    hide FrameAt, FrameLen, HasHeader;
    assert (bytes + tail)[FrameLen(bytes)..] == tail;
  }

  lemma ScanStops(s: seq<byte>)
    requires Stuck(s)
    ensures Scan(s) == Scanned([], s)
  {
  }

  /** The first segment of a string that is not stuck. */
  function FirstSegment(s: seq<byte>): (g: Segment)
    requires !Stuck(s)
    ensures ValidSegments([g]) && BytesOf(g) != [] && BytesOf(g) <= s
    ensures Scan(s).rest == Scan(s[|BytesOf(g)|..]).rest
  {
    if !IsStart(s[0]) then Skipped(s[0]) else (FrameIsItsBytes(s); Whole(s[..FrameLen(s)]))
  }

  /** ... and such a reading always exists. */
  lemma {:induction false} ReadingExists(s: seq<byte>) returns (segments: seq<Segment>)
    ensures ValidSegments(segments) && Wire(segments) + Scan(s).rest == s
    ensures Stuck(Scan(s).rest)
    decreases |s|
  {
    if Stuck(s) {
      segments := [];
      ScanStops(s);
      assert Wire(segments) + s == s;
    } else {
      hide Scan, Stuck, IsFrame, IsStart;
      var first := FirstSegment(s);
      var after := s[|BytesOf(first)|..];
      var tail := ReadingExists(after);
      segments := [first] + tail;
      Prepended(first, tail, Scan(after).rest);
      assert s == BytesOf(first) + after;
    }
  }

  lemma Prepended(first: Segment, tail: seq<Segment>, rest: seq<byte>)
    ensures Wire([first] + tail) + rest == BytesOf(first) + (Wire(tail) + rest)
    ensures ValidSegments([first]) && ValidSegments(tail) ==> ValidSegments([first] + tail)
  {
    assert ([first] + tail)[1..] == tail;
    assert first in [first];
  }

  /** An unreadable rest is the beginning of one frame. */
  lemma StuckIsShort(rest: seq<byte>)
    requires Stuck(rest)
    ensures |rest| <= MAX_RETAINED
  {
  }

  /** Reading a string in two parts: what the first part leaves unread is put
      before the second part. */
  lemma {:induction false} ScanInTwoParts(a: seq<byte>, b: seq<byte>)
    ensures var first := Scan(a);
            var second := Scan(first.rest + b);
            Scan(a + b) == Scanned(first.frames + second.frames, second.rest)
    decreases |a|
  {
    hide FrameAt, FrameLen, HasHeader;
    if a == [] {
      assert a + b == b;
    } else if !IsStart(a[0]) {
      assert (a + b)[1..] == a[1..] + b;
      ScanInTwoParts(a[1..], b);
    } else if StartsWithFrame(a) {
      FrameIsStable(a, b);
      var n := FrameLen(a);
      assert (a + b)[n..] == a[n..] + b;
      ScanInTwoParts(a[n..], b);
    }
  }

  /** Appending each chunk to the buffer and parsing, one chunk after the other. */
  function Feed(buffer: seq<byte>, chunks: seq<seq<byte>>): Scanned
    decreases |chunks|
  {
    if chunks == [] then Scanned([], buffer)
    else
      var first := Scan(buffer + chunks[0]);
      var later := Feed(first.rest, chunks[1..]);
      Scanned(first.frames + later.frames, later.rest)
  }

  lemma {:induction false} FeedIsScan(buffer: seq<byte>, chunks: seq<seq<byte>>)
    requires Stuck(buffer)
    ensures Feed(buffer, chunks) == Scan(buffer + Concat(chunks))
    decreases |chunks|
  {
    hide Scan, FrameAt, FrameLen, HasHeader;
    if chunks == [] {
      assert buffer + [] == buffer;
      ScanStops(buffer);
    } else {
      var _ := ReadingExists(buffer + chunks[0]);
      FeedIsScan(Scan(buffer + chunks[0]).rest, chunks[1..]);
      assert buffer + Concat(chunks) == (buffer + chunks[0]) + Concat(chunks[1..]);
      ScanInTwoParts(buffer + chunks[0], Concat(chunks[1..]));
    }
  }

  /** However a byte stream is split, parsing it as it arrives delivers the frames
      of one datagram holding all of it, and keeps at most 279 bytes, the start of
      a single frame. */
  lemma ChunkingInvariance(chunks: seq<seq<byte>>)
    ensures Feed([], chunks) == Scan(Concat(chunks))
    ensures Stuck(Feed([], chunks).rest) && |Feed([], chunks).rest| <= 279
  {
    FeedIsScan([], chunks);
    assert [] + Concat(chunks) == Concat(chunks);
    var _ := ReadingExists(Concat(chunks));
    StuckIsShort(Scan(Concat(chunks)).rest);
  }

  // ----- What the senders put on the wire -----------------------------------------

  /** The fields given to the two senders: version 2 in the bridge, version 1 in
      the emulator. */
  datatype Packet =
    | V2(sequence: byte, sysid: byte, compid: byte, msgid: nat, crcExtra: byte, payload: seq<byte>)
    | V1(sequence: byte, sysid: byte, compid: byte, msgid: nat, crcExtra: byte, payload: seq<byte>)

  ghost predicate Sendable(p: Packet) {
    |p.payload| <= 255 && p.msgid < (if p.V2? then U32_SIZE else 256)
  }

  function Bits(s: seq<byte>): (bits: seq<bv8>)
    ensures |bits| == |s|
  {
    seq(|s|, i requires 0 <= i < |s| => s[i] as bv8)
  }

  /** Everything the checksum covers: all but the start byte. */
  ghost function Body(p: Packet): seq<byte>
    requires Sendable(p)
  {
    (if p.V2? then
       [|p.payload|, 0, 0, p.sequence, p.sysid, p.compid,
        p.msgid % 256, p.msgid / 256 % 256, p.msgid / 0x1_0000 % 256]
     else
       [|p.payload|, p.sequence, p.sysid, p.compid, p.msgid]) + p.payload
  }

  ghost function Covered(p: Packet): seq<bv8>
    requires Sendable(p)
  {
    Bits(Body(p)) + [p.crcExtra as bv8]
  }

  function Trailer(crc: bv16): (bytes: seq<byte>)
    ensures |bytes| == 2
  {
    [LowByte(crc) as int, HighByte(crc) as int]
  }

  ghost function Encode(p: Packet): seq<byte>
    requires Sendable(p)
  {
    [if p.V2? then STX_V2 else STX_V1] + Body(p) + Trailer(Crc(Covered(p), 0xffff))
  }

  /** What a receiver gets of a packet: 24 bits of the message id. */
  ghost function Arriving(p: Packet): Frame
    requires Sendable(p)
  {
    Frame(p.sysid, p.compid, p.msgid % 0x100_0000, p.payload)
  }

  lemma EncodeIsFrame(p: Packet)
    requires Sendable(p)
    ensures IsFrame(Encode(p)) && FrameAt(Encode(p)) == Arriving(p)
  {
    hide Crc, Covered;
    var head, body, crc := [if p.V2? then STX_V2 else STX_V1], Body(p), Crc(Covered(p), 0xffff);
    LaidOut(p, head, body, Trailer(crc));
  }

  lemma LaidOut(p: Packet, head: seq<byte>, body: seq<byte>, trailer: seq<byte>)
    requires Sendable(p) && |trailer| == 2 && body == Body(p)
    requires head == [if p.V2? then STX_V2 else STX_V1]
    ensures IsFrame(head + body + trailer) && FrameAt(head + body + trailer) == Arriving(p)
  {
    var s := head + body + trailer;
    var n := if p.V2? then 10 else 6;
    assert |body| == n - 1 + |p.payload|;
    assert forall k | 0 <= k < |body| :: s[1 + k] == body[k];
    assert s[n..n + |p.payload|] == p.payload;
    if p.V2? {
      IdBytes(p.msgid);
    }
  }

  lemma IdBytes(id: nat)
    ensures id % 256 + id / 256 % 256 * 256 + id / 0x1_0000 % 256 * 0x1_0000 == id % 0x100_0000
  {
    var high := id / 256;
    assert id / 0x1_0000 == high / 256;
    assert id % 0x100_0000 == id % 256 + high % 0x1_0000 * 256;
    assert high % 0x1_0000 == high % 256 + high / 256 % 256 * 256;
  }

  /** Traffic on the wire: packets, and stray bytes that start no frame. */
  datatype Traffic = Stray(b: byte) | Sent(packet: Packet)

  ghost predicate Plausible(traffic: seq<Traffic>) {
    forall t <- traffic :: if t.Stray? then !IsStart(t.b) else Sendable(t.packet)
  }

  ghost function OnWire(traffic: seq<Traffic>): seq<byte>
    requires Plausible(traffic)
  {
    if traffic == [] then []
    else (if traffic[0].Stray? then [traffic[0].b] else Encode(traffic[0].packet)) + OnWire(traffic[1..])
  }

  ghost function Arrivals(traffic: seq<Traffic>): seq<Frame>
    requires Plausible(traffic)
  {
    if traffic == [] then []
    else (if traffic[0].Stray? then [] else [Arriving(traffic[0].packet)]) + Arrivals(traffic[1..])
  }

  lemma {:induction false} TrafficIsAReading(traffic: seq<Traffic>) returns (segments: seq<Segment>)
    requires Plausible(traffic)
    ensures ValidSegments(segments) && Wire(segments) == OnWire(traffic) && FramesOf(segments) == Arrivals(traffic)
  {
    if traffic == [] {
      segments := [];
    } else {
      var tail := TrafficIsAReading(traffic[1..]);
      segments := [SegmentOf(traffic[0])] + tail;
      assert traffic[0] in traffic;
      SegmentArrives(traffic[0], tail);
      hide Encode, Arriving, FrameAt, IsFrame, ValidSegments, FramesOf, Wire;
    }
  }

  ghost function SegmentOf(t: Traffic): Segment
    requires Plausible([t])
  {
    assert t in [t];
    if t.Stray? then Skipped(t.b) else Whole(Encode(t.packet))
  }

  lemma SegmentArrives(t: Traffic, tail: seq<Segment>)
    requires Plausible([t]) && ValidSegments(tail)
    ensures var segments := [SegmentOf(t)] + tail;
      && ValidSegments(segments)
      && Wire(segments) == (if t.Stray? then [t.b] else Encode(t.packet)) + Wire(tail)
      && FramesOf(segments) == (if t.Stray? then [] else [Arriving(t.packet)]) + FramesOf(tail)
  {
    assert t in [t];
    if t.Sent? {
      EncodeIsFrame(t.packet);
    }
    hide Encode, Arriving, FrameAt, IsFrame;
    assert ([SegmentOf(t)] + tail)[1..] == tail;
  }

  /** An unfinished packet waits in the buffer. */
  lemma UnfinishedIsStuck(p: Packet, rest: seq<byte>)
    requires Sendable(p) && rest < Encode(p)
    ensures Stuck(rest)
  {
    hide Encode, FrameAt;
    EncodeIsFrame(p);
    var missing := Encode(p)[|rest|..];
    assert Encode(p) == rest + missing;
    if StartsWithFrame(rest) {
      FrameIsStable(rest, missing);
    }
  }

  /** Packets of both senders, with stray bytes between them and perhaps one
      unfinished packet at the end, arrive in order and complete under every
      chunking; the unfinished packet is what stays in the buffer. */
  lemma PacketsArrive(traffic: seq<Traffic>, last: Packet, rest: seq<byte>, chunks: seq<seq<byte>>)
    requires Plausible(traffic) && Sendable(last) && rest < Encode(last)
    requires Concat(chunks) == OnWire(traffic) + rest
    ensures Feed([], chunks) == Scanned(Arrivals(traffic), rest)
    ensures Scan(OnWire(traffic) + rest).frames == Arrivals(traffic)
  {
    var segments := TrafficIsAReading(traffic);
    UnfinishedIsStuck(last, rest);
    ScanIsTheReading(segments, rest);
    ChunkingInvariance(chunks);
  }

  lemma EncodeIs(p: Packet)
    requires Sendable(p) && p.V2?
    ensures Encode(p) == [STX_V2] + Body(p) + Trailer(Crc(Bits(Body(p)) + [p.crcExtra as bv8], 0xffff))
  {
  }

  /** The packet of send_packet, byte by byte. */
  lemma EncodedBytes2(p: Packet)
    requires Sendable(p) && p.V2?
    ensures var packet, end := Encode(p), 10 + |p.payload|;
      && |packet| == end + 2
      && packet[0] == 0xfd && packet[1] as int == |p.payload| && packet[2] == packet[3] == 0
      && packet[4] == p.sequence && packet[5] == p.sysid && packet[6] == p.compid
      && packet[7] as int + packet[8] as int * 0x100 + packet[9] as int * 0x1_0000 == p.msgid % 0x100_0000
      && packet[10..end] == p.payload
      && var crc := Crc(Bits(packet[1..end]) + [p.crcExtra as bv8], 0xffff);
      && packet[end] as int + packet[end + 1] as int * 0x100 == Word(crc)
  {
    hide Crc, Bits, Trailer, Word;
    var packet, end := Encode(p), 10 + |p.payload|;
    var crc := Crc(Covered(p), 0xffff);
    TrailerIs(crc);
    assert packet == [0xfd] + Body(p) + Trailer(crc);
    assert packet[1..end] == Body(p);
    assert packet[10..end] == Body(p)[9..];
    assert forall k | 0 <= k < 9 :: packet[1 + k] == Body(p)[k];
    IdBytes(p.msgid);
  }

  lemma EncodedBytes1(p: Packet)
    requires Sendable(p) && p.V1?
    ensures var packet, end := Encode(p), 6 + |p.payload|;
      && |packet| == end + 2
      && packet[..6] == [0xfe, |p.payload|, p.sequence, p.sysid, p.compid, p.msgid]
      && packet[6..end] == p.payload
      && var crc := Crc(Bits(packet[1..end]) + [p.crcExtra as bv8], 0xffff);
      && packet[end] as int + packet[end + 1] as int * 0x100 == Word(crc)
  {
    hide Crc, Bits, Trailer, Word;
    var packet, end := Encode(p), 6 + |p.payload|;
    var crc := Crc(Covered(p), 0xffff);
    TrailerIs(crc);
    assert packet == [0xfe] + Body(p) + Trailer(crc);
    assert packet[1..end] == Body(p);
    assert packet[6..end] == Body(p)[5..];
  }

  /** The register as a number. */
  function Word(crc: bv16): nat { crc as int }

  lemma TrailerIs(crc: bv16)
    ensures Trailer(crc)[0] as int + Trailer(crc)[1] as int * 0x100 == Word(crc)
  {
    WordBits(crc);
  }

  lemma WordBits(crc: bv16)
    ensures (crc & 0xff) as bv8 as int + ((crc >> 8) & 0xff) as bv8 as int * 0x100 == crc as int
  {
  }

  lemma TrailerBits(crc: bv16)
    ensures Bits(Trailer(crc)) == [LowByte(crc), HighByte(crc)]
  {
    hide LowByte, HighByte;
    BitsBack(LowByte(crc));
    BitsBack(HighByte(crc));
  }

  lemma BitsBack(b: bv8)
    ensures (b as int) as bv8 == b
  {
  }

  /** A receiver that tests the checksum accepts a packet as it was sent and
      rejects any other trailer, any damage confined to two adjacent covered
      bytes, and any damage that flips an odd number of covered bits. */
  lemma ChecksumGuardsPacket(p: Packet, trailer: seq<byte>, damaged: seq<bv8>, before: seq<bv8>, after: seq<bv8>,
                             a: bv8, b: bv8, a': bv8, b': bv8)
    requires Sendable(p) && |trailer| == 2
    requires damaged != Covered(p)
    requires (Covered(p) == before + [a, b] + after && damaged == before + [a', b'] + after)
          || OddMessage(damaged) != OddMessage(Covered(p))
    ensures Accepts(Covered(p), Bits(trailer)) <==> Bits(trailer) == Bits(Encode(p)[|Encode(p)| - 2..])
    ensures !Accepts(damaged, Bits(Encode(p)[|Encode(p)| - 2..]))
  {
    hide Accumulate, LowByte, HighByte, Odd;
    var crc := Crc(Covered(p), 0xffff);
    assert Encode(p)[|Encode(p)| - 2..] == Trailer(crc);
    TrailerBits(crc);
    var bits := Bits(trailer);
    assert bits == [bits[0], bits[1]];
    TrailerIsUnique(Covered(p), bits[0], bits[1]);
    TrailerIsUnique(damaged, LowByte(crc), HighByte(crc));
    if Accepts(damaged, [LowByte(crc), HighByte(crc)]) {
      BytesTellRegister(crc, Crc(damaged, 0xffff));
      if OddMessage(damaged) != OddMessage(Covered(p)) {
        OddErrorsAreRevealed(damaged, Covered(p), 0xffff);
      } else {
        BurstIsRevealed(before, a, b, a', b', after, 0xffff);
      }
    }
  }

  // ----- The parsers ------------------------------------------------------------

  /** The tests and fields of the code, which read in place at offset i. */
  lemma InPlace(data: seq<byte>, i: nat)
    requires i < |data| && IsStart(data[i])
    ensures var n := HeaderLen(data[i]);
            && (HasHeader(data[i..]) <==> i + n + 2 <= |data|)
            && (HasHeader(data[i..]) ==>
                FrameLen(data[i..]) == n + data[i + 1] + 2 + (if n == 10 && data[i + 2] % 2 != 0 then 13 else 0))
  {
  }

  lemma FieldsInPlace(data: seq<byte>, i: nat)
    requires i <= |data| && StartsWithFrame(data[i..])
    ensures FrameAt(data[i..])
         == if data[i] == STX_V2 then
              Frame(data[i + 5], data[i + 6],
                    data[i + 7] as int + data[i + 8] as int * 256 + data[i + 9] as int * 0x1_0000,
                    data[i + 10..i + 10 + data[i + 1]])
            else Frame(data[i + 3], data[i + 4], data[i + 5], data[i + 6..i + 6 + data[i + 1]])
  {
    var s := data[i..];
    if s[0] == STX_V2 {
      assert s[10..10 + s[1]] == data[i + 10..i + 10 + data[i + 1]];
    } else {
      assert s[6..6 + s[1]] == data[i + 6..i + 6 + data[i + 1]];
    }
  }

  lemma ScanSkips(data: seq<byte>, i: nat)
    requires i < |data| && !IsStart(data[i])
    ensures Scan(data[i..]) == Scan(data[i + 1..])
  {
    assert data[i..][1..] == data[i + 1..];
  }

  lemma ScanTakes(data: seq<byte>, i: nat, n: nat)
    requires i <= |data| && StartsWithFrame(data[i..]) && n == FrameLen(data[i..])
    ensures Scan(data[i..]).frames == [FrameAt(data[i..])] + Scan(data[i + n..]).frames
    ensures Scan(data[i..]).rest == Scan(data[i + n..]).rest
  {
    assert data[i..][n..] == data[i + n..];
  }

  method ParseDatagram(data: seq<byte>) returns (frames: seq<Frame>)
    ensures frames == Scan(data).frames
  {
    hide FrameAt, FrameLen, HasHeader, Scan;
    frames := [];
    var i := 0;
    assert data[0..] == data;
    while i < |data|
      invariant i <= |data|
      invariant frames + Scan(data[i..]).frames == Scan(data).frames
      invariant i == |data| ==> Stuck(data[i..])
    {
      if data[i] != 0xfe && data[i] != 0xfd {
        ScanSkips(data, i);
        i := i + 1;
        continue;
      }
      InPlace(data, i);
      var mavlink2 := data[i] == 0xfd;
      var headerLen := if mavlink2 then 10 else 6;
      if i + headerLen + 2 > |data| { break; }
      var payloadLen: int := data[i + 1];
      var signatureLen := if mavlink2 && data[i + 2] % 2 != 0 then 13 else 0;
      var frameLen := headerLen + payloadLen + 2 + signatureLen;
      if i + frameLen > |data| { break; }
      ScanTakes(data, i, frameLen);
      var frame := ReadFrame(data, i, mavlink2, payloadLen);
      frames := frames + [frame];
      i := i + frameLen;
    }
    assert Stuck(data[i..]);
    ScanStops(data[i..]);
  }

  /** The fields of the frame at an offset. */
  method ReadFrame(data: seq<byte>, i: nat, mavlink2: bool, payloadLen: nat) returns (frame: Frame)
    requires i <= |data| && StartsWithFrame(data[i..])
    requires mavlink2 == (data[i] == 0xfd) && payloadLen == data[i + 1] as int
    ensures frame == FrameAt(data[i..])
  {
    FieldsInPlace(data, i);
    if mavlink2 {
      frame := Frame(data[i + 5], data[i + 6],
                     data[i + 7] as int + data[i + 8] as int * 256 + data[i + 9] as int * 0x1_0000,
                     data[i + 10..i + 10 + payloadLen]);
    } else {
      frame := Frame(data[i + 3], data[i + 4], data[i + 5], data[i + 6..i + 6 + payloadLen]);
    }
  }

  lemma OneFrameScans(s: seq<byte>)
    requires IsFrame(s)
    ensures Scan(s).frames == [FrameAt(s)]
  {
    assert s[FrameLen(s)..] == [];
  }

  /** What one call to recv reports. */
  datatype Received = Data(bytes: seq<byte>) | WouldBlock | Disconnected | Failed

  /** The bytes received before the first result that is not data. */
  function DataBefore(results: seq<Received>): seq<byte> {
    if results == [] || !results[0].Data? then [] else results[0].bytes + DataBefore(results[1..])
  }

  /** Is the first result that is not data the end of the connection? */
  predicate EndsDisconnected(results: seq<Received>) {
    results != [] && (results[0].Disconnected? || (results[0].Data? && EndsDisconnected(results[1..])))
  }

  lemma BitsTail(s: seq<byte>, i: nat)
    requires i < |s|
    ensures Bits(s[i..]) == [s[i] as bv8] + Bits(s[i + 1..])
  {
  }

  /** The bridge's framing state: TCP receive buffer and packet sequence number.
      The ghost fields record one connection's traffic. */
  class Bridge {
    var streamBuffer: seq<byte>
    var sequence: byte
    var running: bool
    const systemId: byte
    const componentId: byte
    ghost var received: seq<byte>
    ghost var delivered: seq<Frame>

    constructor (systemId: byte, componentId: byte)
      ensures Valid() && !running && sequence == 0
      ensures this.systemId == systemId && this.componentId == componentId
    {
      this.systemId, this.componentId := systemId, componentId;
      streamBuffer, sequence, running := [], 0, false;
      received, delivered := [], [];
    }

    /** While connected, everything received so far is either delivered exactly
        as one datagram holding all of it would be, or still in the buffer. */
    ghost predicate Valid()
      reads this
    {
      Scan(received) == Scanned(delivered, streamBuffer)
    }

    /** parse_stream: take every whole frame off the front of the buffer. */
    method ParseStream() returns (frames: seq<Frame>)
      modifies this`streamBuffer
      ensures frames == Scan(old(streamBuffer)).frames
      ensures streamBuffer == Scan(old(streamBuffer)).rest
    {
      hide FrameAt, FrameLen, HasHeader, Scan;
      frames := [];
      var consumed := 0;
      var i := 0;
      ghost var whole := Scan(streamBuffer);
      assert streamBuffer[0..] == streamBuffer;
      while i < |streamBuffer|
        invariant i == consumed <= |streamBuffer|
        invariant streamBuffer == old(streamBuffer)
        invariant frames + Scan(streamBuffer[i..]).frames == whole.frames
        invariant Scan(streamBuffer[i..]).rest == whole.rest
      {
        if streamBuffer[i] != 0xfe && streamBuffer[i] != 0xfd {
          ScanSkips(streamBuffer, i);
          i := i + 1;
          consumed := i;
          continue;
        }
        InPlace(streamBuffer, i);
        var mavlink2 := streamBuffer[i] == 0xfd;
        var headerLen := if mavlink2 then 10 else 6;
        if i + headerLen + 2 > |streamBuffer| { break; }
        var payloadLen: int := streamBuffer[i + 1];
        var signatureLen := if mavlink2 && streamBuffer[i + 2] % 2 != 0 then 13 else 0;
        var frameLen := headerLen + payloadLen + 2 + signatureLen;
        if i + frameLen > |streamBuffer| { break; }
        var slice := streamBuffer[i..i + frameLen];
        assert slice == streamBuffer[i..][..frameLen];
        FrameIsItsBytes(streamBuffer[i..]);
        OneFrameScans(slice);
        var parsed := ParseDatagram(slice);
        if parsed != [] {
          frames := frames + [parsed[0]];
        }
        ScanTakes(streamBuffer, i, frameLen);
        i := i + frameLen;
        consumed := i;
      }
      assert Stuck(streamBuffer[i..]);
      ScanStops(streamBuffer[i..]);
      if consumed != 0 {
        streamBuffer := streamBuffer[consumed..];
      }
    }

    method Connect()
      modifies this
      ensures Valid() && running && received == [] && delivered == []
      ensures sequence == old(sequence)
    {
      Close();
      running := true;
    }

    method Close()
      modifies this
      ensures Valid() && !running && received == [] && delivered == []
      ensures sequence == old(sequence)
    {
      running := false;
      streamBuffer := [];
      received, delivered := [], [];
    }

    /** The TCP half of poll: receive until the socket has nothing more. */
    method Poll(results: seq<Received>) returns (frames: seq<Frame>)
      requires Valid()
      modifies this
      ensures Valid() && sequence == old(sequence)
      ensures old(!running) ==> frames == [] && !running
      ensures old(running) ==>
        var news := DataBefore(results);
        && running == !EndsDisconnected(results)
        && old(delivered) + frames == Scan(old(received) + news).frames
        && (running ==> received == old(received) + news && delivered == old(delivered) + frames)
    {
      frames := [];
      if !running { return; }
      var k := 0;
      assert results[0..] == results;
      ghost var was, had := received, delivered;
      while k < |results|
        invariant k <= |results| && running && Valid() && sequence == old(sequence)
        invariant was + DataBefore(results) == received + DataBefore(results[k..])
        invariant EndsDisconnected(results) == EndsDisconnected(results[k..])
        invariant delivered == had + frames
        decreases |results| - k
      {
        hide Scan;
        var result := results[k];
        assert results[k..][1..] == results[k + 1..];
        match result {
          case Data(bytes) =>
            ScanInTwoParts(received, bytes);
            streamBuffer := streamBuffer + bytes;
            var more := ParseStream();
            received, delivered := received + bytes, delivered + more;
            frames := frames + more;
          case WouldBlock =>
            break;
          case Disconnected =>
            assert was + DataBefore(results) == received;
            Close();
            return;
          case Failed =>
            break;
        }
        k := k + 1;
      }
      assert k < |results| ==> results[k..][0] == results[k];
      assert received + [] == received;
    }

    /** The loop over all but the start byte, then the message's seed. */
    static method Checksum(packet: seq<byte>, crcExtra: byte) returns (crc: bv16)
      requires packet != []
      ensures crc == Crc(Bits(packet[1..]) + [crcExtra as bv8], 0xffff)
    {
      hide Accumulate;
      crc := 0xffff;
      var i := 1;
      while i < |packet|
        invariant 1 <= i <= |packet|
        invariant Crc(Bits(packet[i..]), crc) == Crc(Bits(packet[1..]), 0xffff)
      {
        BitsTail(packet, i);
        crc := Accumulate(packet[i] as bv8, crc);
        i := i + 1;
      }
      crc := Accumulate(crcExtra as bv8, crc);
      CrcOneMore(Bits(packet[1..]), crcExtra as bv8, 0xffff);
    }

    /** send_packet: a version 2 frame, or nothing when the payload is too long or
        there is no socket. sent is the byte count the socket reports. */
    method SendPacket(messageId: nat, crcExtra: byte, payload: seq<byte>, sent: int)
      returns (ok: bool, packet: seq<byte>)
      requires messageId < U32_SIZE
      modifies this`sequence
      ensures running && |payload| <= 255 ==>
        && packet == Encode(V2(old(sequence), systemId, componentId, messageId, crcExtra, payload))
        && ok == (sent == |packet|)
        // On the bytes: start, length, no flags, sequence number, ids, payload, checksum low byte first.
        && |packet| == 12 + |payload|
        && packet[0] == 0xfd && packet[1] as int == |payload| && packet[2] == packet[3] == 0
        && packet[4] == old(sequence) && packet[5] == systemId && packet[6] == componentId
        && packet[7] as int + packet[8] as int * 0x100 + packet[9] as int * 0x1_0000 == messageId % 0x100_0000
        && packet[10..10 + |payload|] == payload
        && var crc := Crc(Bits(packet[1..10 + |payload|]) + [crcExtra as bv8], 0xffff);
        && packet[10 + |payload|] as int + packet[11 + |payload|] as int * 0x100 == Word(crc)
        && sequence as int == (old(sequence) as int + 1) % 256
      ensures !running || |payload| > 255 ==> !ok && packet == [] && sequence == old(sequence)
    {
      hide Encode, Crc, Bits, Word, Body, Covered;
      if !running || |payload| > 255 {
        return false, [];
      }
      EncodedBytes2(V2(sequence, systemId, componentId, messageId, crcExtra, payload));
      packet := MakePacket(messageId, crcExtra, payload);
      ok := sent == |packet|;
    }

    /** The packet that send_packet builds. */
    method MakePacket(messageId: nat, crcExtra: byte, payload: seq<byte>) returns (packet: seq<byte>)
      requires messageId < U32_SIZE && |payload| <= 255
      modifies this`sequence
      ensures packet == Encode(V2(old(sequence), systemId, componentId, messageId, crcExtra, payload))
      ensures sequence as int == (old(sequence) as int + 1) % 256
    {
      hide Accumulate, Trailer, Crc, Bits;
      var length: byte := |payload|;
      var id0: byte, id1: byte, id2: byte := messageId % 256, messageId / 256 % 256, messageId / 0x1_0000 % 256;
      packet := [STX_V2, length, NO_FLAGS, NO_FLAGS, sequence, systemId, componentId, id0, id1, id2];
      sequence := (sequence as int + 1) % 256;
      packet := packet + payload;
      ghost var p := V2(old(sequence), systemId, componentId, messageId, crcExtra, payload);
      assert packet[1..] == Body(p);
      EncodeIs(p);
      hide Body, Encode, Covered;
      assert packet == [STX_V2] + Body(p);
      var crc := Checksum(packet, crcExtra);
      packet := packet + Trailer(crc);
    }
  }

  /** The emulator's table of checksum seeds; other messages raise KeyError. */
  const CRC_EXTRA: map<int, byte> := map[0 := 50, 24 := 24, 30 := 39, 33 := 104, 74 := 20]

  lemma Seeds(messageId: int)
    ensures messageId in CRC_EXTRA <==> messageId in {0, 24, 30, 33, 74}
    ensures messageId in CRC_EXTRA ==>
      CRC_EXTRA[messageId] as int == if messageId == 0 then 50 else if messageId == 24 then 24
                                     else if messageId == 30 then 39 else if messageId == 33 then 104 else 20
  {
  }

  datatype SendResult = Transmitted(packet: seq<byte>) | StructError | KeyError

  lemma WideSeed(body: seq<bv8>, extra: bv8)
    ensures AccumulateWide(WideByte(extra), Widen(Crc(body, 0xffff))) == Widen(Crc(body + [extra], 0xffff))
  {
    hide Accumulate, AccumulateWide, Crc, WideByte, Widen;
    CrcOneMore(body, extra, 0xffff);
    WideAgrees(extra, Crc(body, 0xffff));
  }

  class Emulator {
    var sequence: byte
    const systemId: byte
    const componentId: byte

    constructor (systemId: byte, componentId: byte)
      ensures sequence == 0 && this.systemId == systemId && this.componentId == componentId
    {
      this.systemId, this.componentId, sequence := systemId, componentId, 0;
    }

    /** The loop over header and payload, in unbounded integers. */
    static method ChecksumWide(covered: seq<byte>) returns (crc: bv32)
      ensures crc == Widen(Crc(Bits(covered), 0xffff))
    {
      hide Accumulate, AccumulateWide, WideByte;
      crc := 0xffff;
      assert crc == Widen(0xffff);
      var i := 0;
      assert covered[0..] == covered;
      while i < |covered|
        invariant i <= |covered|
        invariant CrcWide(Bits(covered[i..]), crc) == CrcWide(Bits(covered), 0xffff)
      {
        BitsTail(covered, i);
        crc := AccumulateWide(WideByte(covered[i] as bv8), crc);
        i := i + 1;
      }
      CrcIsWide(Bits(covered), 0xffff);
    }

    /** MavlinkSender.send: packing the header fails first, then the table. */
    method Send(messageId: int, payload: seq<byte>) returns (r: SendResult)
      modifies this
      ensures |payload| > 255 || !(0 <= messageId < 256) ==> r == StructError
      ensures |payload| <= 255 && 0 <= messageId < 256 && messageId !in CRC_EXTRA ==> r == KeyError
      ensures |payload| <= 255 && messageId in CRC_EXTRA ==>
        r == Transmitted(Encode(V1(old(sequence), systemId, componentId, messageId, CRC_EXTRA[messageId], payload)))
      // On the bytes, with the seeds of HEARTBEAT, GPS_RAW_INT, ATTITUDE, GLOBAL_POSITION_INT and VFR_HUD.
      ensures r.Transmitted? ==>
        && messageId in {0, 24, 30, 33, 74} && |r.packet| == 8 + |payload|
        && r.packet[..6] == [0xfe, |payload|, old(sequence), systemId, componentId, messageId]
        && r.packet[6..6 + |payload|] == payload
        && var extra: byte := if messageId == 0 then 50 else if messageId == 24 then 24 else if messageId == 30 then 39
                              else if messageId == 33 then 104 else 20;
        && var crc := Crc(Bits(r.packet[1..6 + |payload|]) + [extra as bv8], 0xffff);
        && r.packet[6 + |payload|] as int + r.packet[7 + |payload|] as int * 0x100 == Word(crc)
      ensures r.Transmitted? ==> sequence as int == (old(sequence) as int + 1) % 256
      ensures !r.Transmitted? ==> sequence == old(sequence)
    {
      hide Encode, Crc, Bits, Word, Body, Covered;
      if |payload| > 255 || !(0 <= messageId < 256) {
        return StructError;
      }
      Seeds(messageId);
      if messageId in CRC_EXTRA {
        EncodedBytes1(V1(sequence, systemId, componentId, messageId, CRC_EXTRA[messageId], payload));
      }
      r := Transmit(messageId, payload);
    }

    /** The checksum before the look-up in the table, as the code has them. */
    method Transmit(messageId: int, payload: seq<byte>) returns (r: SendResult)
      requires |payload| <= 255 && 0 <= messageId < 256
      modifies this
      ensures messageId !in CRC_EXTRA ==> r == KeyError && sequence == old(sequence)
      ensures messageId in CRC_EXTRA ==>
        && r == Transmitted(Encode(V1(old(sequence), systemId, componentId, messageId, CRC_EXTRA[messageId], payload)))
        && sequence as int == (old(sequence) as int + 1) % 256
    {
      hide Accumulate, AccumulateWide, Trailer, Crc, Bits, WideByte, Widen, Narrow;
      var length: byte, id: byte := |payload|, messageId;
      var header := [length, sequence, systemId, componentId, id];
      var covered := header + payload;
      var crc := ChecksumWide(covered);
      if messageId !in CRC_EXTRA {
        return KeyError;
      }
      var extra := CRC_EXTRA[messageId];
      ghost var p := V1(sequence, systemId, componentId, messageId, extra, payload);
      assert covered == Body(p);
      WideSeed(Bits(Body(p)), extra as bv8);
      crc := AccumulateWide(WideByte(extra as bv8), crc);
      NarrowWidened(Crc(Covered(p), 0xffff));
      var packet := [0xfe] + covered + Trailer(Narrow(crc));
      sequence := (sequence as int + 1) % 256;
      return Transmitted(packet);
    }
  }

  // ----- Counting what was lost -----------------------------------------------------------

  /** A call of send_packet, and how many bytes the socket reports. */
  datatype Request = Request(messageId: nat, crcExtra: byte, payload: seq<byte>, sent: int)

  /** The requests that make a packet. */
  function Short(requests: seq<Request>): nat {
    if requests == [] then 0
    else Short(requests[..|requests| - 1]) + if |requests[|requests| - 1].payload| <= 255 then 1 else 0
  }

  /** A bridge sends some packets: they are numbered one after the other, mod 256, and a
      refused payload takes no number. */
  method SendAll(bridge: Bridge, requests: seq<Request>) returns (packets: seq<seq<byte>>)
    requires bridge.running && forall r <- requests :: r.messageId < U32_SIZE
    modifies bridge`sequence
    ensures |packets| == Short(requests)
    ensures forall k | 0 <= k < |packets| ::
      |packets[k]| >= 12 && packets[k][4] as int == (old(bridge.sequence) as int + k) % 256
    // A receiver that has packet i and next packet j finds j - i - 1 missing, mod 256.
    ensures forall i, j | 0 <= i < j < |packets| ::
      (packets[j][4] as int - packets[i][4] as int - 1) % 256 == (j - i - 1) % 256
  {
    hide Crc, Bits, Encode, Word, Numbered;
    packets := [];
    ghost var first := bridge.sequence;
    NothingNumbered(first);
    for n := 0 to |requests|
      invariant bridge.running && |packets| == Short(requests[..n])
      invariant Numbered(packets, first) && bridge.sequence as int == (first as int + |packets|) % 256
    {
      assert requests[..n + 1][..n] == requests[..n];
      var r := requests[n];
      assert r in requests;
      var _, packet := bridge.SendPacket(r.messageId, r.crcExtra, r.payload, r.sent);
      if |r.payload| <= 255 {
        NextNumbered(packets, first, packet);
        packets := packets + [packet];
      }
    }
    assert requests[..|requests|] == requests;
    NumbersTellLosses(packets, first);
  }

  ghost predicate Numbered(packets: seq<seq<byte>>, first: byte) {
    forall k | 0 <= k < |packets| :: |packets[k]| >= 12 && packets[k][4] as int == (first as int + k) % 256
  }

  lemma NothingNumbered(first: byte)
    ensures Numbered([], first)
  {
  }

  lemma NextNumbered(packets: seq<seq<byte>>, first: byte, packet: seq<byte>)
    requires Numbered(packets, first) && |packet| >= 12 && packet[4] as int == (first as int + |packets|) % 256
    ensures Numbered(packets + [packet], first)
    ensures ((first as int + |packets|) % 256 + 1) % 256 == (first as int + |packets| + 1) % 256
  {
  }

  lemma NumbersTellLosses(packets: seq<seq<byte>>, first: byte)
    requires Numbered(packets, first)
    ensures forall k | 0 <= k < |packets| :: |packets[k]| >= 12 && packets[k][4] as int == (first as int + k) % 256
    ensures forall i, j | 0 <= i < j < |packets| ::
      (packets[j][4] as int - packets[i][4] as int - 1) % 256 == (j - i - 1) % 256
  {
    forall i, j | 0 <= i < j < |packets|
      ensures (packets[j][4] as int - packets[i][4] as int - 1) % 256 == (j - i - 1) % 256
    {
      MissingBetween(first as int, i, j);
    }
  }

  lemma MissingBetween(first: int, i: nat, j: nat)
    ensures ((first + j) % 256 - (first + i) % 256 - 1) % 256 == (j - i - 1) % 256
  {
    assert first + j == (first + j) / 256 * 256 + (first + j) % 256;
    assert first + i == (first + i) / 256 * 256 + (first + i) % 256;
  }
}
