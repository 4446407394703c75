// Recorded RTP packets: the fixture file that holds them, and the replay that sends
// them again with new sequence numbers and timestamps.
module RtpFixture {
  import opened Bytes

  // ----- The file ------------------------------------------------------------------------

  /** "OHDRTP1\n" */
  const MAGIC: seq<byte> := [79, 72, 68, 82, 84, 80, 49, 10]
  const RECORD_SIZE: nat := 12

  datatype Record = Record(time: int, payload: seq<byte>)

  datatype Fixture = Records(records: seq<Record>) | NotFixture | TruncatedRecord | TruncatedPayload

  /** Can struct.pack store the record? */
  predicate Packable(r: Record) {
    0 <= r.time < U64_SIZE && |r.payload| < U32_SIZE
  }

  function Image(r: Record): (s: seq<byte>)
    requires Packable(r)
    ensures |s| == RECORD_SIZE + |r.payload|
  {
    PutU64(r.time) + PutU32(|r.payload|) + r.payload
  }

  predicate AllPackable(records: seq<Record>) {
    forall i | 0 <= i < |records| :: Packable(records[i])
  }

  function Body(records: seq<Record>): seq<byte>
    requires AllPackable(records)
  {
    if records == [] then [] else Image(records[0]) + Body(records[1..])
  }

  /** Not enough left for one more record. */
  predicate Stuck(tail: seq<byte>) {
    |tail| < RECORD_SIZE || |tail| < RECORD_SIZE + GetU32(tail, 8)
  }

  /** The records at the front of a body, and what follows them. */
  function Parse(body: seq<byte>): (seq<Record>, seq<byte>) {
    if Stuck(body) then ([], body)
    else
      var end := RECORD_SIZE + GetU32(body, 8);
      var later := Parse(body[end..]);
      ([Record(GetU64(body, 0), body[RECORD_SIZE..end])] + later.0, later.1)
  }

  function Reading(data: seq<byte>): Fixture {
    if !(MAGIC <= data) then NotFixture
    else
      var (records, tail) := Parse(data[|MAGIC|..]);
      if tail == [] then Records(records) else if |tail| < RECORD_SIZE then TruncatedRecord else TruncatedPayload
  }

  lemma ImageFields(r: Record, after: seq<byte>)
    requires Packable(r)
    ensures var s := Image(r) + after;
            GetU64(s, 0) == r.time && GetU32(s, 8) == |r.payload| && s[RECORD_SIZE..|Image(r)|] == r.payload
              && s[|Image(r)|..] == after
  {
    var s := Image(r) + after;
    assert s == [] + PutU64(r.time) + (PutU32(|r.payload|) + r.payload + after);
    PutGetU64(r.time, [], PutU32(|r.payload|) + r.payload + after);
    assert s == PutU64(r.time) + PutU32(|r.payload|) + (r.payload + after);
    PutGetU32(|r.payload|, PutU64(r.time), r.payload + after);
  }

  /** Written records are read back, whatever stuck piece follows them. */
  lemma {:induction false} ParseUndoesBody(records: seq<Record>, tail: seq<byte>)
    requires AllPackable(records) && Stuck(tail)
    ensures Parse(Body(records) + tail) == (records, tail)
  {
    hide Image, GetU32, GetU64;
    if records == [] {
      assert Body(records) + tail == tail;
    } else {
      var body, after := Body(records) + tail, Body(records[1..]) + tail;
      assert body == Image(records[0]) + after;
      ImageFields(records[0], after);
      ParseUndoesBody(records[1..], tail);
      var end := RECORD_SIZE + GetU32(body, 8);
      assert !Stuck(body) && end == |Image(records[0])| && body[end..] == after;
      assert Record(GetU64(body, 0), body[RECORD_SIZE..end]) == records[0];
      assert [records[0]] + records[1..] == records;
    }
  }

  /** Everything that is read is there: a body is its records and a stuck tail. */
  lemma {:induction false} BodyUndoesParse(body: seq<byte>)
    ensures AllPackable(Parse(body).0) && Stuck(Parse(body).1)
    ensures body == Body(Parse(body).0) + Parse(body).1
    decreases |body|
  {
    hide Image, GetU32, GetU64, Body, AllPackable;
    if Stuck(body) {
      NoBody();
      assert [] + body == body;
    } else {
      var end := RECORD_SIZE + GetU32(body, 8);
      var first, later := Record(GetU64(body, 0), body[RECORD_SIZE..end]), Parse(body[end..]);
      BodyUndoesParse(body[end..]);
      FieldsImage(body, end);
      BodyOf(first, later.0);
      assert Parse(body) == ([first] + later.0, later.1);
      Split(body, end, Body(later.0), later.1);
      assert body == (Image(first) + Body(later.0)) + later.1;
    }
  }

  lemma NoBody()
    ensures AllPackable([]) && Body([]) == []
  {
  }

  lemma Split(s: seq<byte>, k: nat, a: seq<byte>, b: seq<byte>)
    requires k <= |s| && s[k..] == a + b
    ensures s == s[..k] + a + b
  {
    assert s == s[..k] + s[k..];
  }

  lemma BodyOf(first: Record, later: seq<Record>)
    requires Packable(first) && AllPackable(later)
    ensures AllPackable([first] + later) && Body([first] + later) == Image(first) + Body(later)
  {
    assert ([first] + later)[1..] == later;
  }

  lemma FieldsImage(body: seq<byte>, end: nat)
    requires !Stuck(body) && end == RECORD_SIZE + GetU32(body, 8)
    ensures body[..end] == Image(Record(GetU64(body, 0), body[RECORD_SIZE..end]))
  {
    hide GetU32, GetU64, PutU32, PutU64;
    GetPutU64(body, 0);
    GetPutU32(body, 8);
    assert body[..end] == body[0..8] + body[8..12] + body[12..end];
  }

  /** A file is a fixture exactly when it is what the writer writes for its records. */
  lemma ReadingIsWriting(data: seq<byte>, records: seq<Record>)
    ensures Reading(data) == Records(records) <==> AllPackable(records) && data == MAGIC + Body(records)
  {
    if MAGIC <= data {
      BodyUndoesParse(data[|MAGIC|..]);
      assert data == MAGIC + data[|MAGIC|..];
    }
    if AllPackable(records) && data == MAGIC + Body(records) {
      assert data[|MAGIC|..] == Body(records) + [];
      ParseUndoesBody(records, []);
    }
  }

  /** Where a cut falls: after k whole records, inside the next. */
  lemma {:induction false} CutBody(records: seq<Record>, n: nat) returns (k: nat, tail: seq<byte>)
    requires AllPackable(records) && n <= |Body(records)|
    ensures k <= |records| && Body(records)[..n] == Body(records[..k]) + tail
    ensures if k == |records| then tail == [] else |tail| < |Image(records[k])| && tail <= Image(records[k])
  {
    if records == [] {
      return 0, [];
    }
    var first := Image(records[0]);
    if n < |first| {
      k, tail := 0, first[..n];
    } else {
      var l;
      l, tail := CutBody(records[1..], n - |first|);
      k := l + 1;
      assert records[..k][1..] == records[1..][..l];
      assert Body(records)[..n] == first + Body(records[1..])[..n - |first|];
    }
  }

  /** A file cut short is read as its first k records when the cut falls between
      records, and is rejected as truncated otherwise; cut inside the magic, it is no
      fixture at all. */
  lemma CutFile(records: seq<Record>, n: nat) returns (k: nat, tail: seq<byte>)
    requires AllPackable(records) && n <= |MAGIC + Body(records)|
    ensures k <= |records|
    ensures n >= |MAGIC| ==> n == |MAGIC| + |Body(records[..k])| + |tail|
    ensures n >= |MAGIC| ==> if k == |records| then tail == [] else |tail| < |Image(records[k])|
    ensures Reading((MAGIC + Body(records))[..n])
         == if n < |MAGIC| then NotFixture
            else if tail == [] then Records(records[..k])
            else if |tail| < RECORD_SIZE then TruncatedRecord
            else TruncatedPayload
  {
    var data := (MAGIC + Body(records))[..n];
    if n < |MAGIC| {
      return 0, [];
    }
    k, tail := CutBody(records, n - |MAGIC|);
    assert data == MAGIC + Body(records)[..n - |MAGIC|];
    if k < |records| && |tail| >= RECORD_SIZE {
      ImageFields(records[k], []);
      assert Image(records[k]) + [] == Image(records[k]);
      assert tail == Image(records[k])[..|tail|];
    }
    ParseUndoesBody(records[..k], tail);
    assert data[|MAGIC|..] == Body(records[..k]) + tail;
  }

  /** read_fixture. */
  method ReadFixture(data: seq<byte>) returns (fixture: Fixture)
    ensures fixture == Reading(data)
    // The file begins with "OHDRTP1" and a line feed.
    ensures fixture == NotFixture <==> !([79, 72, 68, 82, 84, 80, 49, 10] <= data)
  {
    hide Parse, GetU32, GetU64;
    if !(MAGIC <= data) {
      return NotFixture;
    }
    var offset := |MAGIC|;
    var records: seq<Record> := [];
    ghost var all := Parse(data[|MAGIC|..]);
    assert records + all.0 == all.0;
    while offset < |data|
      invariant |MAGIC| <= offset <= |data|
      invariant all == (records + Parse(data[offset..]).0, Parse(data[offset..]).1)
    {
      ParseAt(data, offset);
      if offset + RECORD_SIZE > |data| {
        return TruncatedRecord;
      }
      var time, size := GetU64(data, offset), GetU32(data, offset + 8);
      offset := offset + RECORD_SIZE;
      if offset + size > |data| {
        return TruncatedPayload;
      }
      ghost var before, later := records, Parse(data[offset + size..]).0;
      records := records + [Record(time, data[offset..offset + size])];
      assert before + ([Record(time, data[offset..offset + size])] + later) == records + later;
      offset := offset + size;
    }
    ParseAt(data, |data|);
    return Records(records);
  }

  /** The tests and fields of the code, which read in place at an offset. */
  lemma ParseAt(data: seq<byte>, offset: nat)
    requires offset <= |data|
    ensures offset + RECORD_SIZE > |data| ==> Parse(data[offset..]) == ([], data[offset..])
    ensures offset + RECORD_SIZE <= |data| ==>
      var end := offset + RECORD_SIZE + GetU32(data, offset + 8);
      Parse(data[offset..])
        == if end > |data| then ([], data[offset..])
           else ([Record(GetU64(data, offset), data[offset + RECORD_SIZE..end])] + Parse(data[end..]).0,
                 Parse(data[end..]).1)
  {
    hide Parse, GetU32, GetU64;
    var here := data[offset..];
    ParseStep(here);
    if offset + RECORD_SIZE <= |data| {
      GetFrom(data, offset);
      var size := GetU32(data, offset + 8);
      if offset + RECORD_SIZE + size <= |data| {
        assert here[RECORD_SIZE..RECORD_SIZE + size] == data[offset + RECORD_SIZE..offset + RECORD_SIZE + size];
        assert here[RECORD_SIZE + size..] == data[offset + RECORD_SIZE + size..];
      }
    }
  }

  lemma ParseStep(body: seq<byte>)
    ensures Parse(body)
         == if Stuck(body) then ([], body)
            else
              var end := RECORD_SIZE + GetU32(body, 8);
              ([Record(GetU64(body, 0), body[RECORD_SIZE..end])] + Parse(body[end..]).0, Parse(body[end..]).1)
  {
  }

  lemma GetFrom(data: seq<byte>, offset: nat)
    requires offset + RECORD_SIZE <= |data|
    ensures GetU64(data[offset..], 0) == GetU64(data, offset) && GetU32(data[offset..], 8) == GetU32(data, offset + 8)
  {
  }

  /** The writer in command_extract: times relative to the first packet. Without packets
      there is no file; a record that cannot be packed stops it, with the records before
      it in the file. */
  method WriteFixture(packets: seq<Record>) returns (file: Option<seq<byte>>, written: nat)
    ensures file.None? <==> packets == []
    ensures written <= |packets| && AllPackable(Relative(packets)[..written])
    ensures written < |packets| ==> !Packable(Relative(packets)[written])
    ensures file.Some? ==> file.value == MAGIC + Body(Relative(packets)[..written])
    ensures file.Some? ==> Reading(file.value) == Records(Relative(packets)[..written])
  {
    hide Image, Reading, PutU64, PutU32, Body, AllPackable;
    EmptyBody();
    if packets == [] {
      return None, 0;
    }
    var first := packets[0].time;
    ghost var all := Relative(packets);
    var output := MAGIC;
    written := 0;
    while written < |packets|
      invariant written <= |packets| && AllPackable(all[..written])
      invariant output == MAGIC + Body(all[..written])
    {
      var record := Record(packets[written].time - first, packets[written].payload);
      if !Packable(record) {
        break;
      }
      BodyOneMore(all[..written], record);
      assert all[..written + 1] == all[..written] + [record];
      assert MAGIC + (Body(all[..written]) + Image(record)) == MAGIC + Body(all[..written]) + Image(record);
      ImageOf(record);
      output := output + (PutU64(record.time) + PutU32(|record.payload|) + record.payload);
      written := written + 1;
    }
    ReadingIsWriting(output, all[..written]);
    file := Some(output);
  }

  lemma EmptyBody()
    ensures AllPackable([]) && Body([]) == []
  {
  }

  /** A record in the file: its time in eight bytes, its length in four, both big-endian,
      and its payload. */
  lemma RecordBytes(r: Record)
    requires Packable(r)
    ensures BigEndian(Image(r)[..8]) == r.time && BigEndian(Image(r)[8..12]) == |r.payload|
      && Image(r)[12..] == r.payload
  {
    ImageFields(r, []);
    var s := Image(r) + [];
    assert s == Image(r);
    FieldsAreBigEndian(s, 0);
    FieldsAreBigEndian(s, 8);
    assert s[0..8] == s[..8];
  }

  lemma ImageOf(r: Record)
    requires Packable(r)
    ensures Image(r) == PutU64(r.time) + PutU32(|r.payload|) + r.payload
  {
  }

  function Relative(packets: seq<Record>): seq<Record> {
    seq(|packets|, i requires 0 <= i < |packets| => Record(packets[i].time - packets[0].time, packets[i].payload))
  }

  lemma {:induction false} BodyOneMore(records: seq<Record>, r: Record)
    requires AllPackable(records) && Packable(r)
    ensures AllPackable(records + [r]) && Body(records + [r]) == Body(records) + Image(r)
  {
    if records != [] {
      assert (records + [r])[1..] == records[1..] + [r];
      BodyOneMore(records[1..], r);
    }
  }

  // ----- The packets -----------------------------------------------------------------------

  datatype Details = Details(sequence: nat, timestamp: nat, marker: bool, payload: seq<byte>)

  /** rtp_details, sections 5.1 and 5.3.1 of RFC 3550. */
  function RtpDetails(p: seq<byte>): (details: Option<Details>)
    ensures details.Some? ==> |p| >= 12 && details.value.sequence < U16_SIZE && details.value.timestamp < U32_SIZE
  {
    if |p| < 12 || p[0] / 64 != 2 then None
    else
      var fixedSize := 12 + p[0] % 16 * 4;
      if p[0] / 16 % 2 == 1 && |p| < fixedSize + 4 then None
      else
        var size := if p[0] / 16 % 2 == 1 then fixedSize + 4 + GetU16(p, fixedSize + 2) * 4 else fixedSize;
        if |p| < size then None
        else Some(Details(GetU16(p, 2), GetU32(p, 4), p[1] >= 128, p[size..]))
  }

  // ----- RTP packets as the standard lays them out ----------------------------------------

  /** The fields of section 5.1 of RFC 3550, with the bytes of the CSRC list, and of the
      header extension of section 5.3.1: its profile and the bytes of its words. */
  datatype Rtp = Rtp(padding: bool, extension: Option<(nat, seq<byte>)>, csrcs: seq<byte>, marker: bool,
                     payloadType: nat, sequence: nat, timestamp: nat, ssrc: nat, payload: seq<byte>)

  predicate Proper(r: Rtp) {
    && |r.csrcs| % 4 == 0 && |r.csrcs| / 4 < 16 && r.payloadType < 128
    && r.sequence < U16_SIZE && r.timestamp < U32_SIZE && r.ssrc < U32_SIZE
    && (r.extension.Some? ==>
          r.extension.value.0 < U16_SIZE && |r.extension.value.1| % 4 == 0 && |r.extension.value.1| / 4 < U16_SIZE)
  }

  function ExtensionBytes(extension: Option<(nat, seq<byte>)>): seq<byte>
    requires extension.Some? ==> extension.value.0 < U16_SIZE && |extension.value.1| / 4 < U16_SIZE
  {
    if extension.None? then []
    else PutU16(extension.value.0) + PutU16(|extension.value.1| / 4) + extension.value.1
  }

  function FirstByte(r: Rtp): nat {
    128 + (if r.padding then 32 else 0) + (if r.extension.Some? then 16 else 0) + |r.csrcs| / 4
  }

  /** Version 2 in the top bits, then the fields in order. */
  function FixedPart(r: Rtp): (head: seq<byte>)
    requires Proper(r)
    ensures |head| == 12
  {
    [FirstByte(r), (if r.marker then 128 else 0) + r.payloadType]
    + PutU16(r.sequence) + PutU32(r.timestamp) + PutU32(r.ssrc)
  }

  function Packed(r: Rtp): seq<byte>
    requires Proper(r)
  {
    FixedPart(r) + (r.csrcs + (ExtensionBytes(r.extension) + r.payload))
  }

  /** The bit fields of the first two bytes do not run into one another. */
  lemma BitFields(r: Rtp)
    requires Proper(r)
    ensures FirstByte(r) / 64 == 2 && FirstByte(r) % 16 == |r.csrcs| / 4
    ensures FirstByte(r) / 16 % 2 == 1 <==> r.extension.Some?
  {
  }

  lemma FixedFields(r: Rtp, rest: seq<byte>)
    requires Proper(r)
    ensures var p := FixedPart(r) + rest;
      && p[0] as int == FirstByte(r) && (p[1] >= 128 <==> r.marker)
      && GetU16(p, 2) == r.sequence && GetU32(p, 4) == r.timestamp
  {
    hide PutU16, PutU32, GetU16, GetU32;
    var p := FixedPart(r) + rest;
    var first := [FirstByte(r) as byte, ((if r.marker then 128 else 0) + r.payloadType) as byte];
    assert p == first + PutU16(r.sequence) + (PutU32(r.timestamp) + (PutU32(r.ssrc) + rest));
    PutGetU16(r.sequence, first, PutU32(r.timestamp) + (PutU32(r.ssrc) + rest));
    assert p == (first + PutU16(r.sequence)) + PutU32(r.timestamp) + (PutU32(r.ssrc) + rest);
    PutGetU32(r.timestamp, first + PutU16(r.sequence), PutU32(r.ssrc) + rest);
  }

  /** rtp_details read on the two parts of a packet. */
  lemma DetailsOfParts(head: seq<byte>, rest: seq<byte>)
    requires |head| == 12
    ensures var p, skip := head + rest, head[0] % 16 * 4;
      RtpDetails(p)
        == if head[0] / 64 != 2 || (head[0] / 16 % 2 == 1 && |rest| < skip + 4) then None
           else
             var size := if head[0] / 16 % 2 == 1 then skip + 4 + GetU16(rest, skip + 2) * 4 else skip;
             if |rest| < size then None
             else Some(Details(GetU16(p, 2), GetU32(p, 4), head[1] >= 128, rest[size..]))
  {
    hide GetU32;
    var p := head + rest;
    assert p[0] == head[0] && p[1] == head[1];
    assert forall k | 0 <= k <= |rest| :: p[12 + k..] == rest[k..];
  }

  lemma VariableFields(csrcs: seq<byte>, extension: Option<(nat, seq<byte>)>, payload: seq<byte>)
    requires extension.Some? ==>
      extension.value.0 < U16_SIZE && |extension.value.1| % 4 == 0 && |extension.value.1| / 4 < U16_SIZE
    ensures var rest, skip := csrcs + (ExtensionBytes(extension) + payload), |csrcs|;
      && (extension.None? ==> rest[skip..] == payload)
      && (extension.Some? ==>
            var length := |extension.value.1|;
            && |rest| >= skip + 4 + length && GetU16(rest, skip + 2) == length / 4
              && rest[skip + 4 + length..] == payload)
  {
    if extension.None? {
      assert ([] + payload) == payload;
      assert (csrcs + payload)[|csrcs|..] == payload;
    } else {
      var (profile, words) := extension.value;
      var rest, before := csrcs + (ExtensionBytes(extension) + payload), csrcs + PutU16(profile);
      hide PutU16, GetU16;
      assert rest == before + PutU16(|words| / 4) + (words + payload);
      PutGetU16(|words| / 4, before, words + payload);
    }
  }

  /** rtp_details reads off a packet what was put in. */
  lemma PackedDetails(r: Rtp)
    requires Proper(r)
    ensures RtpDetails(Packed(r)) == Some(Details(r.sequence, r.timestamp, r.marker, r.payload))
  {
    hide RtpDetails, FixedPart, ExtensionBytes, FirstByte, GetU16, GetU32;
    var rest := r.csrcs + (ExtensionBytes(r.extension) + r.payload);
    BitFields(r);
    FixedFields(r, rest);
    assert Packed(r)[0] == FixedPart(r)[0] && Packed(r)[1] == FixedPart(r)[1];
    DetailsOfParts(FixedPart(r), rest);
    VariableFields(r.csrcs, r.extension, r.payload);
  }

  /** And every packet it accepts is such a packet. */
  lemma DetailsArePacked(p: seq<byte>) returns (r: Rtp)
    requires RtpDetails(p).Some?
    ensures Proper(r) && Packed(r) == p
    ensures RtpDetails(p) == Some(Details(r.sequence, r.timestamp, r.marker, r.payload))
  {
    var head, rest := p[..12], p[12..];
    assert p == head + rest;
    DetailsOfParts(head, rest);
    hide RtpDetails, GetU32;
    var skip := head[0] % 16 * 4;
    var extension, payload := TakeVariable(rest, skip, head[0] / 16 % 2 == 1);
    r := Rtp(head[0] / 32 % 2 == 1, extension, rest[..skip], head[1] >= 128, head[1] as int % 128,
             GetU16(p, 2), GetU32(p, 4), GetU32(p, 8), payload);
    TakeFixed(p, r);
    PackedDetails(r);
  }

  lemma TakeVariable(rest: seq<byte>, skip: nat, extended: bool)
    returns (extension: Option<(nat, seq<byte>)>, payload: seq<byte>)
    requires |rest| >= skip && (extended ==> |rest| >= skip + 4 && |rest| >= skip + 4 + GetU16(rest, skip + 2) * 4)
    ensures extension.Some? <==> extended
    ensures extended ==>
      extension.value.0 < U16_SIZE && |extension.value.1| % 4 == 0 && |extension.value.1| / 4 < U16_SIZE
    ensures rest == rest[..skip] + (ExtensionBytes(extension) + payload)
  {
    if !extended {
      assert [] + rest[skip..] == rest[skip..];
      return None, rest[skip..];
    }
    var size := GetU16(rest, skip + 2) * 4;
    GetPutU16(rest, skip);
    GetPutU16(rest, skip + 2);
    extension, payload := Some((GetU16(rest, skip), rest[skip + 4..skip + 4 + size])), rest[skip + 4 + size..];
    hide PutU16, GetU16;
    CutInFive(rest, skip, skip + 2, skip + 4, skip + 4 + size);
  }

  lemma CutInFive(s: seq<byte>, i: nat, j: nat, k: nat, l: nat)
    requires i <= j <= k <= l <= |s|
    ensures s == s[..i] + (s[i..j] + s[j..k] + s[k..l] + s[l..])
  {
  }

  lemma TakeFixed(p: seq<byte>, r: Rtp)
    requires |p| >= 12 && p[0] / 64 == 2 && Proper(r)
    requires r.padding == (p[0] / 32 % 2 == 1) && r.extension.Some? == (p[0] / 16 % 2 == 1)
    requires |r.csrcs| / 4 == p[0] as int % 16 && r.marker == (p[1] >= 128) && r.payloadType == p[1] as int % 128
    requires r.sequence == GetU16(p, 2) && r.timestamp == GetU32(p, 4) && r.ssrc == GetU32(p, 8)
    ensures FixedPart(r) == p[..12]
  {
    hide PutU16, PutU32, GetU16, GetU32;
    GetPutU16(p, 2);
    GetPutU32(p, 4);
    GetPutU32(p, 8);
    assert FirstByte(r) == p[0] as int;
    assert p[..12] == [p[0], p[1]] + p[2..4] + p[4..8] + p[8..12];
  }

  /** So the packets that count are exactly the RTP packets of version 2. */
  lemma AcceptsExactlyRtp(p: seq<byte>)
    ensures RtpDetails(p).Some? <==> exists r :: Proper(r) && Packed(r) == p
  {
    if RtpDetails(p).Some? {
      var r := DetailsArePacked(p);
    }
    if r :| Proper(r) && Packed(r) == p {
      PackedDetails(r);
    }
  }

  /** The two pack_into calls of the replay. */
  function Rewrite(p: seq<byte>, sequence: nat, timestamp: nat): (r: seq<byte>)
    requires |p| >= 12 && sequence < U16_SIZE && timestamp < U32_SIZE
    ensures |r| == |p| && r[..2] == p[..2] && r[8..] == p[8..]
  {
    p[..2] + PutU16(sequence) + PutU32(timestamp) + p[8..]
  }

  /** Rewriting changes the sequence number and the timestamp, nothing else. */
  lemma RewriteDetails(p: seq<byte>, sequence: nat, timestamp: nat)
    requires RtpDetails(p).Some? && sequence < U16_SIZE && timestamp < U32_SIZE
    ensures RtpDetails(Rewrite(p, sequence, timestamp))
         == Some(RtpDetails(p).value.(sequence := sequence, timestamp := timestamp))
  {
    hide Rewrite, GetU32;
    var r := Rewrite(p, sequence, timestamp);
    RewriteFields(p, sequence, timestamp);
    assert forall i | 8 <= i <= |p| :: r[i..] == p[i..];
  }

  lemma RewriteFields(p: seq<byte>, sequence: nat, timestamp: nat)
    requires |p| >= 12 && sequence < U16_SIZE && timestamp < U32_SIZE
    ensures var r := Rewrite(p, sequence, timestamp);
      && GetU16(r, 2) == sequence && GetU32(r, 4) == timestamp
      && forall i | 0 <= i < |p| && !(2 <= i < 8) :: r[i] == p[i]
  {
    hide PutU16, PutU32, GetU16, GetU32;
    var r := Rewrite(p, sequence, timestamp);
    PutGetU16(sequence, p[..2], PutU32(timestamp) + p[8..]);
    assert r == p[..2] + PutU16(sequence) + (PutU32(timestamp) + p[8..]);
    PutGetU32(timestamp, p[..2] + PutU16(sequence), p[8..]);
    assert r == (p[..2] + PutU16(sequence)) + PutU32(timestamp) + p[8..];
  }

  /** Its own numbers put back give the packet itself. */
  lemma RewriteOwn(p: seq<byte>)
    requires RtpDetails(p).Some?
    ensures Rewrite(p, RtpDetails(p).value.sequence, RtpDetails(p).value.timestamp) == p
  {
    GetPutU32(p, 4);
    assert PutU16(GetU16(p, 2)) == p[2..4];
  }

  // ----- Access units --------------------------------------------------------------------------

  /** The packets of a record list that rtp_details accepts. */
  function Valid(records: seq<Record>): (packets: seq<seq<byte>>)
    ensures forall i | 0 <= i < |packets| :: RtpDetails(packets[i]).Some?
  {
    if records == [] then []
    else
      var last := |records| - 1;
      Valid(records[..last]) + (if RtpDetails(records[last].payload).Some? then [records[last].payload] else [])
  }

  function Stamps(packets: seq<seq<byte>>): seq<nat>
    requires forall i | 0 <= i < |packets| :: RtpDetails(packets[i]).Some?
  {
    seq(|packets|, i requires 0 <= i < |packets| => RtpDetails(packets[i]).value.timestamp)
  }

  /** Runs of equal timestamps. */
  function Units(stamps: seq<nat>): nat {
    if stamps == [] then 0
    else
      var last := |stamps| - 1;
      Units(stamps[..last]) + (if last == 0 || stamps[last] != stamps[last - 1] then 1 else 0)
  }

  /** The run that packet i belongs to, counted from 0. */
  function UnitOf(stamps: seq<nat>, i: nat): int
    requires i < |stamps|
  {
    Units(stamps[..i + 1]) - 1
  }

  /** The access units of summarize: the list of timestamps that differ from the one before. */
  method Summarize(records: seq<Record>) returns (packets: nat, rtpPackets: nat, accessUnits: nat)
    ensures packets == |records| && rtpPackets == |Valid(records)|
    ensures accessUnits == Units(Stamps(Valid(records)))
  {
    hide RtpDetails, Units, Stamps;
    NothingPlayed(0, 0, 0);
    var timestamps: seq<nat> := [];
    packets, rtpPackets := |records|, 0;
    for i := 0 to |records|
      invariant rtpPackets == |Valid(records[..i])|
      invariant |timestamps| == Units(Stamps(Valid(records[..i])))
      invariant timestamps == [] <==> rtpPackets == 0
      invariant rtpPackets > 0 ==> timestamps[|timestamps| - 1] == LastStamp(Valid(records[..i]))
    {
      OneMoreRecord(records, i);
      var details := RtpDetails(records[i].payload);
      if details.Some? {
        OneMoreStamp(Valid(records[..i]), records[i].payload);
        if timestamps == [] || timestamps[|timestamps| - 1] != details.value.timestamp {
          timestamps := timestamps + [details.value.timestamp];
        }
        rtpPackets := rtpPackets + 1;
      }
    }
    assert records[..|records|] == records;
    accessUnits := |timestamps|;
  }

  // ----- The timestamp step ------------------------------------------------------------

  /** The timestamps with repetitions in a row left out. */
  function Changes(stamps: seq<nat>): (changes: seq<nat>)
    ensures stamps != [] ==> changes != [] && changes[|changes| - 1] == stamps[|stamps| - 1]
  {
    if stamps == [] then []
    else
      var last := |stamps| - 1;
      if last > 0 && stamps[last] == stamps[last - 1] then Changes(stamps[..last])
      else Changes(stamps[..last]) + [stamps[last]]
  }

  function Differences(s: seq<nat>): seq<nat> {
    seq(if s == [] then 0 else |s| - 1, i requires 0 <= i && i + 1 < |s| => (s[i + 1] - s[i]) % U32_SIZE)
  }

  function InsertSorted(x: nat, s: seq<nat>): seq<nat> {
    if s == [] || x <= s[0] then [x] + s else [s[0]] + InsertSorted(x, s[1..])
  }

  function Sorted(s: seq<nat>): seq<nat> {
    if s == [] then [] else InsertSorted(s[0], Sorted(s[1..]))
  }

  /** statistics.median, then int: of two middle values half the sum, its fraction dropped. */
  function Median(s: seq<nat>): nat
    requires s != []
  {
    SortedKeeps(s);
    var sorted, middle := Sorted(s), |s| / 2;
    if |s| % 2 == 1 then sorted[middle] else (sorted[middle - 1] + sorted[middle]) / 2
  }

  lemma {:induction false} InsertKeeps(x: nat, s: seq<nat>)
    ensures multiset(InsertSorted(x, s)) == multiset(s) + multiset{x}
    ensures |InsertSorted(x, s)| == |s| + 1
    ensures (forall i, j | 0 <= i < j < |s| :: s[i] <= s[j]) ==>
      forall i, j | 0 <= i < j < |s| + 1 :: InsertSorted(x, s)[i] <= InsertSorted(x, s)[j]
    ensures InsertSorted(x, s)[0] == if s == [] || x <= s[0] then x else s[0]
  {
    if s != [] && x > s[0] {
      assert s == [s[0]] + s[1..];
      InsertKeeps(x, s[1..]);
    } else {
      assert [x] + s == [x] + s[..];
    }
  }

  lemma {:induction false} SortedKeeps(s: seq<nat>)
    ensures multiset(Sorted(s)) == multiset(s) && |Sorted(s)| == |s|
    ensures forall i, j | 0 <= i < j < |s| :: Sorted(s)[i] <= Sorted(s)[j]
  {
    if s != [] {
      assert s == [s[0]] + s[1..];
      SortedKeeps(s[1..]);
      InsertKeeps(s[0], Sorted(s[1..]));
    }
  }

  function InferredStep(stamps: seq<nat>): nat {
    var differences := Differences(Changes(stamps));
    if differences == [] then 1500 else Median(differences)
  }

  /** inferred_timestamp_step. */
  method InferStep(records: seq<Record>) returns (step: nat)
    ensures step == InferredStep(Stamps(Valid(records)))
    ensures Units(Stamps(Valid(records))) <= 1 ==> step == 1500
  {
    hide RtpDetails, Stamps;
    NothingPlayed(0, 0, 0);
    var timestamps: seq<nat> := [];
    for i := 0 to |records|
      invariant timestamps == Changes(Stamps(Valid(records[..i])))
      invariant timestamps == [] <==> Valid(records[..i]) == []
      invariant timestamps != [] ==> timestamps[|timestamps| - 1] == LastStamp(Valid(records[..i]))
    {
      OneMoreRecord(records, i);
      var details := RtpDetails(records[i].payload);
      if details.Some? {
        OneMoreChange(Valid(records[..i]), records[i].payload);
        if timestamps == [] || timestamps[|timestamps| - 1] != details.value.timestamp {
          timestamps := timestamps + [details.value.timestamp];
        }
      }
    }
    assert records[..|records|] == records;
    var differences: seq<nat> := [];
    var k := 0;
    while k + 1 < |timestamps|
      invariant k <= |timestamps| && (timestamps == [] ==> k == 0) && (timestamps != [] ==> k < |timestamps|)
      invariant differences == Differences(timestamps)[..k]
    {
      ChangesDiffer(Stamps(Valid(records)), k);
      if timestamps[k + 1] != timestamps[k] {
        differences := differences + [(timestamps[k + 1] - timestamps[k]) % U32_SIZE];
      }
      k := k + 1;
    }
    assert differences == Differences(timestamps);
    ChangesCount(Stamps(Valid(records)));
    step := if differences != [] then Median(differences) else 1500;
  }

  lemma OneMoreChange(valid: seq<seq<byte>>, packet: seq<byte>)
    requires forall i | 0 <= i < |valid| :: RtpDetails(valid[i]).Some?
    requires RtpDetails(packet).Some?
    ensures var stamp := RtpDetails(packet).value.timestamp;
      Changes(Stamps(valid + [packet]))
        == if valid == [] || LastStamp(valid) != stamp then Changes(Stamps(valid)) + [stamp] else Changes(Stamps(valid))
  {
    hide RtpDetails;
    var more := Stamps(valid + [packet]);
    assert more[..|valid|] == Stamps(valid);
  }

  lemma {:induction false} ChangesDiffer(stamps: seq<nat>, k: nat)
    ensures k + 1 < |Changes(stamps)| ==> Changes(stamps)[k + 1] != Changes(stamps)[k]
  {
    if stamps != [] {
      ChangesDiffer(stamps[..|stamps| - 1], k);
    }
  }

  /** The timestamps that differ are as many as the access units. */
  predicate StartsUnit(stamps: seq<nat>, i: nat)
    requires i < |stamps|
  {
    i == 0 || stamps[i] != stamps[i - 1]
  }

  function UnitStarts(stamps: seq<nat>): set<nat> {
    set i: nat | i < |stamps| && StartsUnit(stamps, i)
  }

  /** Access units are as many as the places where the timestamp is not that of the packet before. */
  lemma {:induction false} UnitsAreChanges(stamps: seq<nat>)
    ensures Units(stamps) == |UnitStarts(stamps)|
  {
    if stamps != [] {
      var last := |stamps| - 1;
      UnitsAreChanges(stamps[..last]);
      OneMoreStart(stamps);
    }
  }

  lemma OneMoreStart(stamps: seq<nat>)
    requires stamps != []
    ensures var last := |stamps| - 1;
      && last !in UnitStarts(stamps[..last])
      && UnitStarts(stamps) == UnitStarts(stamps[..last]) + if StartsUnit(stamps, last) then {last} else {}
  {
    var last := |stamps| - 1;
    forall i: nat | i < last ensures StartsUnit(stamps[..last], i) <==> StartsUnit(stamps, i) {
    }
    hide StartsUnit;
  }

  lemma {:induction false} ChangesCount(stamps: seq<nat>)
    ensures |Changes(stamps)| == Units(stamps)
  {
    if stamps != [] {
      ChangesCount(stamps[..|stamps| - 1]);
    }
  }

  /** Access units that all follow one another by the same step have that step inferred. */
  lemma EvenStepIsInferred(stamps: seq<nat>, step: nat)
    requires Units(stamps) > 1 && forall d <- Differences(Changes(stamps)) :: d == step
    ensures InferredStep(stamps) == step
  {
    ChangesCount(stamps);
    var differences := Differences(Changes(stamps));
    SortedKeeps(differences);
    forall i | 0 <= i < |differences| ensures Sorted(differences)[i] == step {
      assert Sorted(differences)[i] in multiset(Sorted(differences));
      assert Sorted(differences)[i] in differences;
    }
  }

  // ----- Replaying --------------------------------------------------------------------------

  /** The timestamp k access units after out; a timestamp is masked only when it moves. */
  function Later(out: int, k: int, step: int): int {
    if k == 0 then out else (out + k * step) % U32_SIZE
  }

  lemma LaterAdds(out: int, a: nat, b: nat, step: int)
    ensures Later(Later(out, a, step), b, step) == Later(out, a + b, step)
  {
    assert (a + b) * step == a * step + b * step;
    ModPlus(out + a * step, b * step);
  }

  lemma ModPlus(x: int, y: int)
    ensures (x % U32_SIZE + y) % U32_SIZE == (x + y) % U32_SIZE
  {
    assert x == x / U32_SIZE * U32_SIZE + x % U32_SIZE;
  }

  /** The source packet of every packet sent, over some cycles. */
  function Sources(packets: seq<seq<byte>>, cycles: int): seq<seq<byte>> {
    if cycles <= 0 then [] else Sources(packets, cycles - 1) + packets
  }

  /** The access unit of every packet sent, counted over all cycles. */
  function Numbers(stamps: seq<nat>, cycles: int): seq<int> {
    if cycles <= 0 then []
    else Numbers(stamps, cycles - 1) + CycleNumbers(stamps, (cycles - 1) * Units(stamps))
  }

  function CycleNumbers(stamps: seq<nat>, first: int): seq<int> {
    seq(|stamps|, j requires 0 <= j < |stamps| => first + UnitOf(stamps, j))
  }

  /** Packet n has the n-th sequence number and the timestamp of its access unit; all
      else is as in its source. */
  ghost predicate PlayedAs(sent: seq<seq<byte>>, sources: seq<seq<byte>>, numbers: seq<int>, sequence: int,
                           timestamp: int, step: int) {
    && |sent| == |sources| == |numbers|
    && forall n | 0 <= n < |sent| :: SentAs(sent[n], sources[n], sequence + n, Later(timestamp, numbers[n], step))
  }

  ghost predicate SentAs(packet: seq<byte>, source: seq<byte>, sequence: int, timestamp: int) {
    RtpDetails(source).Some? && 0 <= timestamp < U32_SIZE && packet == Rewrite(source, sequence % U16_SIZE, timestamp)
  }

  lemma PlayedTogether(a: seq<seq<byte>>, b: seq<seq<byte>>, fromA: seq<seq<byte>>, fromB: seq<seq<byte>>,
                       stamps: seq<nat>, numbers: seq<int>, first: nat, sequence: int, timestamp: int, step: int)
    requires PlayedAs(a, fromA, numbers, sequence, timestamp, step)
    requires PlayedAs(b, fromB, CycleNumbers(stamps, 0), sequence + |a|, Later(timestamp, first, step), step)
    ensures PlayedAs(a + b, fromA + fromB, numbers + CycleNumbers(stamps, first), sequence, timestamp, step)
  {
    hide SentAs, Later, Units;
    var sent, sources, all := a + b, fromA + fromB, numbers + CycleNumbers(stamps, first);
    forall n | 0 <= n < |sent| ensures SentAs(sent[n], sources[n], sequence + n, Later(timestamp, all[n], step)) {
      if n >= |a| {
        var j := n - |a|;
        UnitsCount(stamps, j);
        LaterAdds(timestamp, first, UnitOf(stamps, j), step);
        assert CycleNumbers(stamps, 0)[j] == UnitOf(stamps, j);
        assert sent[n] == b[j] && sources[n] == fromB[j];
        assert sequence + |a| + j == sequence + n;
      } else {
        assert sent[n] == a[n] && sources[n] == fromA[n] && all[n] == numbers[n];
      }
    }
  }

  /** Access units are counted up from 0, one at each change of timestamp. */
  lemma {:induction false} UnitsCount(stamps: seq<nat>, i: nat)
    requires i < |stamps|
    ensures 0 <= UnitOf(stamps, i) < Units(stamps)
    ensures i == 0 ==> UnitOf(stamps, i) == 0
    ensures i > 0 ==> UnitOf(stamps, i) == UnitOf(stamps, i - 1) + (if stamps[i] != stamps[i - 1] then 1 else 0)
    ensures i == |stamps| - 1 ==> UnitOf(stamps, i) == Units(stamps) - 1
    decreases |stamps|
  {
    var front := stamps[..|stamps| - 1];
    if i < |front| {
      UnitsCount(front, i);
      assert front[..i + 1] == stamps[..i + 1] && (i > 0 ==> front[..i] == stamps[..i]);
    } else {
      assert stamps[..i + 1] == stamps && stamps[..i] == front;
      if i > 0 {
        UnitsCount(front, i - 1);
      }
    }
  }

  datatype Replayed = Empty | Rejected | Sent(packets: seq<seq<byte>>, accessUnits: nat)

  /** One pass over the fixture. */
  method PlayCycle(records: seq<Record>, sequence: int, timestamp: int, step: int)
      returns (ok: bool, sent: seq<seq<byte>>, accessUnits: nat, next: int)
    ensures ok <==> Valid(records) == [] || 0 <= timestamp < U32_SIZE
    ensures ok ==> PlayedAs(sent, Valid(records), CycleNumbers(Stamps(Valid(records)), 0), sequence, timestamp, step)
    ensures ok ==> |sent| == |Valid(records)|
    ensures ok ==> accessUnits == Units(Stamps(Valid(records)))
    ensures ok ==> next == Later(timestamp, if accessUnits == 0 then 1 else accessUnits, step)
  {
    hide RtpDetails, Units, CycleNumbers, PlayedAs, Stamps, Rewrite, Later, LastStamp, Stepped, Valid;
    var output, previous: Option<nat> := timestamp, None;
    sent, accessUnits := [], 0;
    NothingPlayed(sequence, timestamp, step);
    LaterInRange(timestamp, 0, step);
    ghost var valid: seq<seq<byte>> := [];
    NoRecords(records);
    for i := 0 to |records|
      invariant valid == Valid(records[..i]) && |sent| == |valid|
      invariant PlayedAs(sent, valid, CycleNumbers(Stamps(valid), 0), sequence, timestamp, step)
      invariant accessUnits == Units(Stamps(valid))
      invariant valid == [] ==> previous == None && output == timestamp && accessUnits == 0
      invariant valid != [] ==> previous == Some(LastStamp(valid)) && output == Later(timestamp, accessUnits - 1, step)
      invariant valid != [] ==> accessUnits > 0 && 0 <= timestamp < U32_SIZE
    {
      var packet := records[i].payload;
      OneMoreRecord(records, i);
      var details := RtpDetails(packet);
      if details.None? {
        continue;
      }
      if previous.None? || details.value.timestamp != previous.value {
        if previous.Some? {
          output := Stepped(output, step);
          LaterByOne(timestamp, accessUnits - 1, step);
        }
        accessUnits := accessUnits + 1;
      }
      previous := Some(details.value.timestamp);
      LaterInRange(timestamp, accessUnits - 1, step);
      if !(0 <= output < U32_SIZE) {
        ValidGrows(records, i + 1);
        return false, [], 0, 0;
      }
      OneMorePacket(sent, valid, packet, accessUnits, sequence, timestamp, step);
      sent := sent + [Rewrite(packet, (sequence + |sent|) % U16_SIZE, output)];
      valid := valid + [packet];
    }
    assert records[..|records|] == records;
    ok, next := true, Stepped(output, step);
    LaterByOne(timestamp, if accessUnits == 0 then 0 else accessUnits - 1, step);
  }

  lemma NoRecords(records: seq<Record>)
    ensures Valid(records[..0]) == []
  {
  }

  function Stepped(timestamp: int, step: int): int { (timestamp + step) % U32_SIZE }

  lemma LaterByOne(out: int, k: nat, step: int)
    ensures Later(out, k + 1, step) == Stepped(Later(out, k, step), step)
  {
    LaterAdds(out, k, 1, step);
  }

  function LastStamp(packets: seq<seq<byte>>): nat
    requires packets != [] && forall i | 0 <= i < |packets| :: RtpDetails(packets[i]).Some?
  {
    RtpDetails(packets[|packets| - 1]).value.timestamp
  }

  lemma OneMoreRecord(records: seq<Record>, i: nat)
    requires i < |records|
    ensures if RtpDetails(records[i].payload).Some?
            then Valid(records[..i + 1]) == Valid(records[..i]) + [records[i].payload]
            else Valid(records[..i + 1]) == Valid(records[..i])
  {
    assert records[..i + 1][..i] == records[..i];
  }

  lemma {:induction false} ValidGrows(records: seq<Record>, i: nat)
    requires i <= |records|
    ensures Valid(records[..i]) <= Valid(records)
    decreases |records| - i
  {
    if i == |records| {
      assert records[..i] == records;
    } else {
      OneMoreRecord(records, i);
      ValidGrows(records, i + 1);
    }
  }

  lemma OneMorePacket(sent: seq<seq<byte>>, valid: seq<seq<byte>>, packet: seq<byte>, units: nat, sequence: int,
                      timestamp: int, step: int)
    requires forall i | 0 <= i < |valid| :: RtpDetails(valid[i]).Some?
    requires RtpDetails(packet).Some?
    requires PlayedAs(sent, valid, CycleNumbers(Stamps(valid), 0), sequence, timestamp, step)
    requires units == Units(Stamps(valid))
      + if valid == [] || LastStamp(valid) != RtpDetails(packet).value.timestamp then 1 else 0
    requires 0 <= Later(timestamp, units - 1, step) < U32_SIZE
    ensures LastStamp(valid + [packet]) == RtpDetails(packet).value.timestamp
    ensures units == Units(Stamps(valid + [packet]))
    ensures PlayedAs(sent + [Rewrite(packet, (sequence + |sent|) % U16_SIZE, Later(timestamp, units - 1, step))],
                     valid + [packet], CycleNumbers(Stamps(valid + [packet]), 0), sequence, timestamp, step)
  {
    hide Rewrite, Later, RtpDetails, PlayedAs, CycleNumbers;
    var stamps, more := Stamps(valid), Stamps(valid + [packet]);
    OneMoreStamp(valid, packet);
    OneMoreNumber(stamps, RtpDetails(packet).value.timestamp);
    PlayedOneMore(sent, valid, CycleNumbers(stamps, 0), packet, units - 1, sequence, timestamp, step);
  }

  lemma PlayedOneMore(sent: seq<seq<byte>>, sources: seq<seq<byte>>, numbers: seq<int>,
                      source: seq<byte>, number: int, sequence: int, timestamp: int, step: int)
    requires RtpDetails(source).Some? && 0 <= Later(timestamp, number, step) < U32_SIZE
    requires PlayedAs(sent, sources, numbers, sequence, timestamp, step)
    ensures PlayedAs(sent + [Rewrite(source, (sequence + |sent|) % U16_SIZE, Later(timestamp, number, step))],
                     sources + [source], numbers + [number], sequence, timestamp, step)
  {
    hide Rewrite, Later, RtpDetails;
    assert SentAs(Rewrite(source, (sequence + |sent|) % U16_SIZE, Later(timestamp, number, step)), source,
                  sequence + |sent|, Later(timestamp, number, step));
    hide SentAs;
  }

  lemma OneMoreStamp(valid: seq<seq<byte>>, packet: seq<byte>)
    requires forall i | 0 <= i < |valid| :: RtpDetails(valid[i]).Some?
    requires RtpDetails(packet).Some?
    ensures Stamps(valid + [packet]) == Stamps(valid) + [RtpDetails(packet).value.timestamp]
    ensures Units(Stamps(valid + [packet]))
         == Units(Stamps(valid))
            + if valid == [] || LastStamp(valid) != RtpDetails(packet).value.timestamp then 1 else 0
  {
    hide RtpDetails;
    var more := Stamps(valid + [packet]);
    assert more[..|valid|] == Stamps(valid);
  }

  lemma OneMoreNumber(stamps: seq<nat>, stamp: nat)
    ensures CycleNumbers(stamps + [stamp], 0) == CycleNumbers(stamps, 0) + [Units(stamps + [stamp]) - 1]
  {
    hide Units;
    var more := stamps + [stamp];
    assert more[..|stamps| + 1] == more;
    forall j | 0 <= j < |stamps| ensures UnitOf(more, j) == UnitOf(stamps, j) {
      assert more[..j + 1] == stamps[..j + 1];
    }
  }

  /** The step to use: the one given, or, as 0 stands for none, the inferred one. */
  function StepOf(records: seq<Record>, given: int): int {
    if given != 0 then given else InferredStep(Stamps(Valid(records)))
  }

  /** command_replay, without pacing. A first timestamp outside 32 bits cannot be packed. */
  method Replay(records: seq<Record>, sequence: int, timestamp: int, given: int, cycles: int) returns (r: Replayed)
    ensures r.Empty? <==> records == []
    ensures r.Rejected? <==> cycles > 0 && Valid(records) != [] && !(0 <= timestamp < U32_SIZE)
    ensures r.Sent? ==>
      && var stamps, step := Stamps(Valid(records)), StepOf(records, given);
      && PlayedAs(r.packets, Sources(Valid(records), cycles), Numbers(stamps, cycles), sequence, timestamp, step)
      && r.accessUnits == (if cycles > 0 then cycles * Units(stamps) else 0)
  {
    hide PlayedAs, Stamps, Units, InferredStep;
    if records == [] {
      return Empty;
    }
    var step := given;
    if step == 0 {
      step := InferStep(records);
    }
    r := PlayAll(records, sequence, timestamp, step, cycles);
  }

  /** The loop over the cycles. */
  method PlayAll(records: seq<Record>, sequence: int, timestamp: int, step: int, cycles: int) returns (r: Replayed)
    requires records != []
    ensures !r.Empty?
    ensures r.Rejected? <==> cycles > 0 && Valid(records) != [] && !(0 <= timestamp < U32_SIZE)
    ensures r.Sent? ==>
      && var stamps := Stamps(Valid(records));
      && PlayedAs(r.packets, Sources(Valid(records), cycles), Numbers(stamps, cycles), sequence, timestamp, step)
      && r.accessUnits == (if cycles > 0 then cycles * Units(stamps) else 0)
  {
    hide PlayedAs, CycleNumbers, Later, Stamps, Units;
    ghost var valid := Valid(records);
    ghost var stamps := Stamps(valid);
    ghost var all := Units(stamps);
    UnitsEmpty(valid);
    NothingPlayed(sequence, timestamp, step);
    LaterInRange(timestamp, 0, step);
    var sent, accessUnits, output, cycle := [], 0, timestamp, 0;
    while cycle < cycles
      invariant cycle == 0 || cycle <= cycles
      invariant cycle > 0 ==> valid == [] || 0 <= timestamp < U32_SIZE
      invariant PlayedAs(sent, Sources(valid, cycle), Numbers(stamps, cycle), sequence, timestamp, step)
      invariant accessUnits == cycle * all
      invariant all > 0 ==> output == Later(timestamp, cycle * all, step)
    {
      LaterInRange(timestamp, cycle * all, step);
      var ok, packets, units, next := PlayCycle(records, sequence + |sent|, output, step);
      if !ok {
        return Rejected;
      }
      if all == 0 {
        NothingPlayed(sequence + |sent|, Later(timestamp, cycle * all, step), step);
      }
      PlayedTogether(sent, packets, Sources(valid, cycle), valid, stamps, Numbers(stamps, cycle), cycle * all,
                     sequence, timestamp, step);
      LaterAdds(timestamp, cycle * all, all, step);
      assert (cycle + 1) * all == cycle * all + all;
      sent, accessUnits, output, cycle := sent + packets, accessUnits + units, next, cycle + 1;
    }
    r := Sent(sent, accessUnits);
  }

  lemma UnitsEmpty(packets: seq<seq<byte>>)
    requires forall i | 0 <= i < |packets| :: RtpDetails(packets[i]).Some?
    ensures Units(Stamps(packets)) == 0 <==> packets == []
  {
    if packets != [] {
      UnitsCount(Stamps(packets), 0);
    }
  }

  lemma LaterIs(out: int, k: int, step: int)
    ensures 0 <= out < U32_SIZE ==> Later(out, k, step) == (out + k * step) % 0x1_0000_0000
  {
  }

  lemma LaterInRange(out: int, k: int, step: int)
    ensures Later(out, 0, step) == out
    ensures 0 <= out < U32_SIZE ==> 0 <= Later(out, k, step) < U32_SIZE
  {
  }

  lemma NothingPlayed(sequence: int, timestamp: int, step: int)
    ensures PlayedAs([], [], [], sequence, timestamp, step)
    ensures Stamps([]) == [] && Units([]) == 0 && CycleNumbers([], 0) == []
  {
  }

  // ----- What a receiver sees -----------------------------------------------------------------

  /** The numbers count every access unit of every cycle, without a gap. */
  lemma {:induction false} NumbersClimb(stamps: seq<nat>, cycles: int)
    ensures stamps == [] || cycles <= 0 ==> Numbers(stamps, cycles) == []
    ensures stamps != [] && cycles > 0 ==>
      && var g := Numbers(stamps, cycles);
      && g != [] && g[0] == 0 && g[|g| - 1] == cycles * Units(stamps) - 1
      && forall n | 0 < n < |g| :: g[n - 1] <= g[n] <= g[n - 1] + 1
  {
    hide Units, CycleNumbers, Numbers;
    var all := Units(stamps);
    NumbersNext(stamps, cycles);
    if cycles > 0 {
      var first := (cycles - 1) * all;
      NumbersClimb(stamps, cycles - 1);
      CycleClimbs(stamps, first);
      OneMoreCycle(cycles, all);
      if stamps != [] {
        ClimbsJoin(Numbers(stamps, cycles - 1), CycleNumbers(stamps, first));
      }
    }
  }

  lemma NumbersNext(stamps: seq<nat>, cycles: int)
    ensures cycles <= 0 ==> Numbers(stamps, cycles) == []
    ensures cycles > 0 ==>
      Numbers(stamps, cycles) == Numbers(stamps, cycles - 1) + CycleNumbers(stamps, (cycles - 1) * Units(stamps))
  {
  }

  lemma OneMoreCycle(cycles: int, all: nat)
    ensures cycles * all == (cycles - 1) * all + all
    ensures cycles == 1 ==> (cycles - 1) * all == 0
  {
  }

  lemma CycleClimbs(stamps: seq<nat>, first: int)
    ensures var g := CycleNumbers(stamps, first);
      && |g| == |stamps|
      && (g != [] ==> g[0] == first && g[|g| - 1] == first + Units(stamps) - 1)
      && forall n | 0 < n < |g| :: g[n - 1] <= g[n] <= g[n - 1] + 1
  {
    hide Units;
    if stamps != [] {
      UnitsCount(stamps, 0);
      UnitsCount(stamps, |stamps| - 1);
    }
    forall n | 0 < n < |stamps| ensures UnitOf(stamps, n - 1) <= UnitOf(stamps, n) <= UnitOf(stamps, n - 1) + 1 {
      UnitsCount(stamps, n);
    }
  }

  lemma ClimbsJoin(a: seq<int>, b: seq<int>)
    requires b != [] && (a == [] || b[0] == a[|a| - 1] + 1)
    requires forall n | 0 < n < |a| :: a[n - 1] <= a[n] <= a[n - 1] + 1
    requires forall n | 0 < n < |b| :: b[n - 1] <= b[n] <= b[n - 1] + 1
    ensures var g := a + b; g[|g| - 1] == b[|b| - 1] && forall n | 0 < n < |g| :: g[n - 1] <= g[n] <= g[n - 1] + 1
  {
    var g := a + b;
    forall n | 0 < n < |g| ensures g[n - 1] <= g[n] <= g[n - 1] + 1 {
      if n < |a| {
        assert a[n - 1] <= a[n];
      } else if n > |a| {
        assert b[n - 1 - |a|] <= b[n - |a|];
      }
    }
  }

  /** The access units of a sequence that follows a gapless count are as many as were counted,
      if its timestamps change when the count does. */
  lemma {:induction false} UnitsFollow(stamps: seq<nat>, numbers: seq<int>)
    requires |stamps| == |numbers| > 0 && numbers[0] == 0
    requires forall n | 0 < n < |numbers| :: numbers[n - 1] <= numbers[n] <= numbers[n - 1] + 1
    requires forall n | 0 < n < |numbers| :: stamps[n] == stamps[n - 1] <==> numbers[n] == numbers[n - 1]
    ensures Units(stamps) == numbers[|numbers| - 1] + 1
  {
    if |stamps| > 1 {
      UnitsFollow(stamps[..|stamps| - 1], numbers[..|numbers| - 1]);
    }
  }

  lemma {:induction false} UnitsConstant(stamps: seq<nat>)
    requires stamps != [] && forall n | 0 < n < |stamps| :: stamps[n] == stamps[n - 1]
    ensures Units(stamps) == 1
  {
    if |stamps| > 1 {
      UnitsConstant(stamps[..|stamps| - 1]);
    }
  }

  /** Of two neighbouring access units the timestamps differ exactly when the step is
      no multiple of 2^32. */
  lemma NeighboursDiffer(out: int, k: nat, step: int)
    requires 0 <= out < U32_SIZE
    ensures Later(out, k + 1, step) == Later(out, k, step) <==> step % U32_SIZE == 0
  {
    LaterAdds(out, k, 1, step);
    var here := Later(out, k, step);
    assert Later(out, k + 1, step) == (here + step) % U32_SIZE;
    ModPlus(step, here);
  }

  /** Read back with rtp_details, a replay has consecutive sequence numbers, the
      timestamps of its access units, and the markers and payloads of its sources;
      and summarize finds the access units the replay counted, exactly when the step
      moves the timestamp or there is no second access unit. */
  lemma ReplayReadBack(sent: seq<seq<byte>>, valid: seq<seq<byte>>, sequence: int, timestamp: int, step: int,
                       cycles: int)
    requires forall i | 0 <= i < |valid| :: RtpDetails(valid[i]).Some?
    requires 0 <= timestamp < U32_SIZE && cycles >= 0
    requires PlayedAs(sent, Sources(valid, cycles), Numbers(Stamps(valid), cycles), sequence, timestamp, step)
    ensures forall n | 0 <= n < |sent| ::
      RtpDetails(sent[n]) == Some(RtpDetails(Sources(valid, cycles)[n]).value.(
        sequence := (sequence + n) % 0x1_0000,
        timestamp := (timestamp + Numbers(Stamps(valid), cycles)[n] * step) % 0x1_0000_0000))
    ensures var accessUnits := cycles * Units(Stamps(valid));
      Units(Stamps(sent)) == accessUnits <==> step % U32_SIZE != 0 || accessUnits <= 1
  {
    hide Later, Rewrite, RtpDetails, Units, Sources, Numbers;
    var sources, numbers := Sources(valid, cycles), Numbers(Stamps(valid), cycles);
    forall n | 0 <= n < |sent|
      ensures RtpDetails(sent[n]) == Some(RtpDetails(sources[n]).value.(
                sequence := (sequence + n) % 0x1_0000, timestamp := (timestamp + numbers[n] * step) % 0x1_0000_0000))
      ensures RtpDetails(sent[n]).Some? && RtpDetails(sent[n]).value.timestamp == Later(timestamp, numbers[n], step)
    {
      RewriteDetails(sources[n], (sequence + n) % U16_SIZE, Later(timestamp, numbers[n], step));
      LaterIs(timestamp, numbers[n], step);
    }
    ReplayUnits(Stamps(sent), Stamps(valid), timestamp, step, cycles);
  }

  lemma ReplayUnits(out: seq<nat>, stamps: seq<nat>, timestamp: int, step: int, cycles: nat)
    requires 0 <= timestamp < U32_SIZE
    requires |out| == |Numbers(stamps, cycles)|
    requires forall n | 0 <= n < |out| :: out[n] == Later(timestamp, Numbers(stamps, cycles)[n], step)
    ensures var accessUnits := cycles * Units(stamps);
      Units(out) == accessUnits <==> step % U32_SIZE != 0 || accessUnits <= 1
  {
    hide Later, Numbers, Units;
    NumbersClimb(stamps, cycles);
    var numbers := Numbers(stamps, cycles);
    if stamps != [] && cycles > 0 {
      ClimbsFromZero(numbers);
      forall n | 0 < n < |out| ensures out[n] == out[n - 1] <==> step % U32_SIZE == 0 || numbers[n] == numbers[n - 1] {
        NeighboursDiffer(timestamp, numbers[n - 1], step);
      }
      if step % U32_SIZE != 0 {
        UnitsFollow(out, numbers);
      } else {
        UnitsConstant(out);
      }
    } else {
      UnitsOfNothing(out, stamps, cycles);
    }
  }

  lemma UnitsOfNothing(out: seq<nat>, stamps: seq<nat>, cycles: nat)
    requires out == [] && (stamps == [] || cycles == 0)
    ensures Units(out) == 0 == cycles * Units(stamps)
  {
  }

  lemma {:induction false} ClimbsFromZero(g: seq<int>)
    requires g != [] ==> g[0] == 0
    requires forall n | 0 < n < |g| :: g[n - 1] <= g[n] <= g[n - 1] + 1
    ensures forall n | 0 <= n < |g| :: g[n] >= 0
  {
    if |g| > 1 {
      ClimbsFromZero(g[..|g| - 1]);
      assert g[|g| - 2] == g[..|g| - 1][|g| - 2];
    }
  }

  /** Replayed once with its own first numbers and its own step, an evenly stamped
      recording without a lost packet comes out as it was recorded. */
  lemma OwnNumbersRestore(sent: seq<seq<byte>>, valid: seq<seq<byte>>, sequence: int, timestamp: int, step: int)
    requires forall i | 0 <= i < |valid| :: RtpDetails(valid[i]).Some?
    requires forall i | 0 <= i < |valid| :: RtpDetails(valid[i]).value.sequence == (sequence + i) % U16_SIZE
    requires forall i | 0 <= i < |valid| :: Stamps(valid)[i] == Later(timestamp, UnitOf(Stamps(valid), i), step)
    requires PlayedAs(sent, Sources(valid, 1), Numbers(Stamps(valid), 1), sequence, timestamp, step)
    ensures sent == valid
  {
    assert Sources(valid, 1) == [] + valid == valid;
    assert Numbers(Stamps(valid), 1) == CycleNumbers(Stamps(valid), 0);
    forall n | 0 <= n < |sent| ensures sent[n] == valid[n] {
      RewriteOwn(valid[n]);
    }
  }
}
