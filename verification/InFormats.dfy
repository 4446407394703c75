// The IN_FORMATS property of a display plane: a binary table of pixel formats and
// modifiers, and the question whether a format can be shown with a modifier.
module InFormats {
  import opened Arithmetic
  import opened Bytes

  /** The property's bytes; None when there is no blob or it has no data. */
  type Blob = Option<seq<byte>>

  /** Little-endian fields. */
  function Le32(s: seq<byte>, offset: nat): (v: nat)
    requires offset + 4 <= |s|
    ensures v < U32_SIZE
  {
    s[offset] as int + s[offset + 1] as int * 256 + s[offset + 2] as int * 0x1_0000 + s[offset + 3] as int * 0x100_0000
  }

  function Le64(s: seq<byte>, offset: nat): (v: nat)
    requires offset + 8 <= |s|
    ensures v < U64_SIZE
  {
    Le32(s, offset) + Le32(s, offset + 4) * U32_SIZE
  }

  const HEADER_SIZE: nat := 24
  const FORMAT_SIZE: nat := 4
  const RECORD_SIZE: nat := 24

  datatype Header = Header(version: nat, flags: nat, countFormats: nat, formatsOffset: nat, countModifiers: nat,
                           modifiersOffset: nat)

  datatype Record = Record(formats: nat, offset: nat, modifier: nat)

  function HeaderAt(s: seq<byte>, offset: nat): (h: Header)
    requires offset + HEADER_SIZE <= |s|
    ensures h.countFormats < U32_SIZE && h.formatsOffset < U32_SIZE && h.countModifiers < U32_SIZE
      && h.modifiersOffset < U32_SIZE
  {
    Header(Le32(s, offset), Le32(s, offset + 4), Le32(s, offset + 8), Le32(s, offset + 12), Le32(s, offset + 16),
           Le32(s, offset + 20))
  }

  function RecordAt(s: seq<byte>, offset: nat): Record
    requires offset + RECORD_SIZE <= |s|
  {
    Record(Le64(s, offset), Le32(s, offset + 8), Le64(s, offset + 16))
  }

  function PowerOfTwo(k: nat): (p: nat)
    ensures p > 0
  {
    if k == 0 then 1 else 2 * PowerOfTwo(k - 1)
  }

  predicate Bit(v: nat, k: nat) {
    v / PowerOfTwo(k) % 2 == 1
  }

  /** Do count elements of this size fit behind offset? Said without an overflow, and
      exact: division and subtraction stand for a product and a sum that could wrap. */
  function BlobHasRange(blob: Blob, offset: nat, count: nat, elementSize: nat): (r: bool)
    ensures r <==> blob.Some? && elementSize > 0 && offset + count * elementSize <= |blob.value|
  {
    if blob.None? || elementSize == 0 then false
    else if offset > |blob.value| then
      assert count * elementSize >= 0;
      false
    else
      FitsExactly(|blob.value| - offset, count, elementSize);
      count <= (|blob.value| - offset) / elementSize
  }

  lemma FitsExactly(room: nat, count: nat, size: nat)
    requires size > 0
    ensures count <= room / size <==> count * size <= room
  {
    assert room == size * (room / size) + room % size;
    if count <= room / size {
      ProductGrows(size, count, room / size);
    } else {
      ProductGrows(size, room / size + 1, count);
      assert (room / size + 1) * size == size * (room / size) + size;
    }
  }

  /** read_blob_value, for each type it is used with. */
  function ReadU32(blob: Blob, offset: nat): Option<nat> {
    if BlobHasRange(blob, offset, 1, FORMAT_SIZE) then Some(Le32(blob.value, offset)) else None
  }

  function ReadHeader(blob: Blob, offset: nat): Option<Header> {
    if BlobHasRange(blob, offset, 1, HEADER_SIZE) then Some(HeaderAt(blob.value, offset)) else None
  }

  function ReadRecord(blob: Blob, offset: nat): Option<Record> {
    if BlobHasRange(blob, offset, 1, RECORD_SIZE) then Some(RecordAt(blob.value, offset)) else None
  }

  /** The header is of a known version and its two tables lie inside the blob. */
  predicate WellFormed(s: seq<byte>) {
    && |s| >= HEADER_SIZE
    && var h := HeaderAt(s, 0);
    && h.version == 1 && h.flags == 0
    && h.formatsOffset + h.countFormats * FORMAT_SIZE <= |s|
    && h.modifiersOffset + h.countModifiers * RECORD_SIZE <= |s|
  }

  /** Entry i of the format table. */
  function Format(s: seq<byte>, i: nat): nat
    requires WellFormed(s) && i < HeaderAt(s, 0).countFormats
  {
    Le32(s, HeaderAt(s, 0).formatsOffset + i * FORMAT_SIZE)
  }

  /** Entry j of the modifier table. */
  function Modifier(s: seq<byte>, j: nat): Record
    requires WellFormed(s) && j < HeaderAt(s, 0).countModifiers
  {
    RecordAt(s, HeaderAt(s, 0).modifiersOffset + j * RECORD_SIZE)
  }

  /** Does modifier record j speak for entry i of the format table? Its 64 bits stand for
      the entries from its offset on. */
  predicate Lists(r: Record, i: nat, modifier: nat) {
    r.modifier == modifier && r.offset <= i < r.offset + 64 && Bit(r.formats, i - r.offset)
  }

  predicate Hit(s: seq<byte>, i: nat, j: nat, format: nat, modifier: nat)
    requires WellFormed(s) && i < HeaderAt(s, 0).countFormats && j < HeaderAt(s, 0).countModifiers
  {
    Format(s, i) == format && Lists(Modifier(s, j), i, modifier)
  }

  /** What the property says about a format and a modifier. */
  ghost predicate Supported(blob: Blob, format: nat, modifier: nat) {
    && blob.Some? && WellFormed(blob.value)
    && exists i: nat, j: nat | i < HeaderAt(blob.value, 0).countFormats && j < HeaderAt(blob.value, 0).countModifiers ::
         Hit(blob.value, i, j, format, modifier)
  }

  // ----- The table a blob holds -------------------------------------------------------

  /** The first count bytes of a number, least significant first. */
  function LittleEndian(count: nat, v: nat): (s: seq<byte>)
    ensures |s| == count
  {
    if count == 0 then [] else [v % 256] + LittleEndian(count - 1, v / 256)
  }

  /** The number whose binary digits are one at the places listed, out of the first n. */
  function Mask(listed: set<nat>, n: nat): nat {
    if n == 0 then 0 else Mask(listed, n - 1) + if n - 1 in listed then PowerOfTwo(n - 1) else 0
  }

  /** A modifier with the format indices it goes with, counted from an offset. */
  datatype Entry = Entry(offset: nat, listed: set<nat>, modifier: nat)

  predicate Storable(e: Entry) {
    e.offset < U32_SIZE && e.modifier < U64_SIZE && forall k <- e.listed :: k < 64
  }

  /** A header of version 1 without flags, and at the places it names the formats and
      the entries; what else is in the blob does not matter. */
  ghost predicate Holds(s: seq<byte>, formats: seq<nat>, entries: seq<Entry>, formatsAt: nat, entriesAt: nat) {
    && |s| >= 24 && |formats| < U32_SIZE && |entries| < U32_SIZE && formatsAt < U32_SIZE && entriesAt < U32_SIZE
    && s[..24] == LittleEndian(4, 1) + LittleEndian(4, 0) + LittleEndian(4, |formats|) + LittleEndian(4, formatsAt)
                  + LittleEndian(4, |entries|) + LittleEndian(4, entriesAt)
    && formatsAt + 4 * |formats| <= |s| && entriesAt + 24 * |entries| <= |s|
    && (forall i | 0 <= i < |formats| :: HoldsFormat(s, formatsAt + 4 * i, formats[i]))
    && (forall j | 0 <= j < |entries| :: HoldsEntry(s, entriesAt + 24 * j, entries[j]))
  }

  predicate HoldsFormat(s: seq<byte>, at: nat, format: nat) {
    at + 4 <= |s| && format < U32_SIZE && s[at..at + 4] == LittleEndian(4, format)
  }

  /** Eight bytes of bits, four of offset, four of padding, eight of modifier. */
  predicate HoldsEntry(s: seq<byte>, at: nat, e: Entry) {
    && at + 24 <= |s| && Storable(e)
    && s[at..at + 8] == LittleEndian(8, Mask(e.listed, 64))
    && s[at + 8..at + 12] == LittleEndian(4, e.offset)
    && s[at + 16..at + 24] == LittleEndian(8, e.modifier)
  }

  /** Is the format in the table, at an index that an entry of the modifier lists? */
  ghost predicate InTable(formats: seq<nat>, entries: seq<Entry>, format: nat, modifier: nat) {
    exists i: nat, j: nat | i < |formats| && j < |entries| :: Pairs(formats[i], i, entries[j], format, modifier)
  }

  predicate Pairs(f: nat, i: nat, e: Entry, format: nat, modifier: nat) {
    f == format && e.modifier == modifier && i >= e.offset && i - e.offset in e.listed
  }

  lemma Le32Is(s: seq<byte>, at: nat, v: nat)
    requires at + 4 <= |s| && v < U32_SIZE
    ensures s[at..at + 4] == LittleEndian(4, v) <==> Le32(s, at) == v
  {
    FourDigits(v);
    DigitsMake(v);
    var a, b, c, d := s[at], s[at + 1], s[at + 2], s[at + 3];
    FourDigitsTell(a, b, c, d);
    hide LittleEndian;
    assert s[at..at + 4] == [a, b, c, d];
  }

  lemma DigitsMake(v: nat)
    requires v < U32_SIZE
    ensures v / 256 / 256 / 256 < 256
    ensures v == v % 256 + v / 256 % 256 * 256 + v / 256 / 256 % 256 * 0x1_0000 + v / 256 / 256 / 256 * 0x100_0000
  {
    var b, c, d := v / 256, v / 256 / 256, v / 256 / 256 / 256;
    assert v == b * 256 + v % 256 && b == c * 256 + b % 256 && c == d * 256 + c % 256;
  }

  lemma FourDigits(v: nat)
    ensures LittleEndian(4, v) == [v % 256, v / 256 % 256, v / 256 / 256 % 256, v / 256 / 256 / 256 % 256]
  {
    assert LittleEndian(4, v) == [v % 256] + LittleEndian(3, v / 256);
    assert LittleEndian(3, v / 256) == [v / 256 % 256] + LittleEndian(2, v / 256 / 256);
    assert LittleEndian(2, v / 256 / 256) == [v / 256 / 256 % 256] + LittleEndian(1, v / 256 / 256 / 256);
    assert LittleEndian(1, v / 256 / 256 / 256)
      == [v / 256 / 256 / 256 % 256] + LittleEndian(0, v / 256 / 256 / 256 / 256);
  }

  lemma FourDigitsTell(a: byte, b: byte, c: byte, d: byte)
    ensures var v := a as int + b as int * 256 + c as int * 0x1_0000 + d as int * 0x100_0000;
      v % 256 == a as int && v / 256 % 256 == b as int && v / 256 / 256 % 256 == c as int
        && v / 256 / 256 / 256 == d as int
  {
    var v := a as int + b as int * 256 + c as int * 0x1_0000 + d as int * 0x100_0000;
    assert v / 256 == b as int + c as int * 256 + d as int * 0x1_0000;
    assert v / 256 / 256 == c as int + d as int * 256;
  }

  function Shifted(v: nat, digits: nat): nat {
    if digits == 0 then v else Shifted(v / 256, digits - 1)
  }

  lemma {:induction false} DigitsSplit(a: nat, b: nat, v: nat)
    ensures LittleEndian(a + b, v) == LittleEndian(a, v) + LittleEndian(b, Shifted(v, a))
  {
    if a > 0 {
      DigitsSplit(a - 1, b, v / 256);
    }
  }

  lemma EightDigits(v: nat)
    ensures LittleEndian(8, v) == LittleEndian(4, v) + LittleEndian(4, v / U32_SIZE)
  {
    hide LittleEndian;
    DigitsSplit(4, 4, v);
    FourBytesDown(v);
  }

  lemma FourBytesDown(v: nat)
    ensures Shifted(v, 4) == v / U32_SIZE
  {
    var b, c, d := v / 256, v / 256 / 256, v / 256 / 256 / 256;
    assert Shifted(v, 4) == Shifted(b, 3) == Shifted(c, 2) == Shifted(d, 1) == Shifted(d / 256, 0);
    assert v / 0x1_0000 == c;
    assert v / U32_SIZE == c / 0x1_0000;
  }

  lemma Le64Is(s: seq<byte>, at: nat, v: nat)
    requires at + 8 <= |s| && v < U64_SIZE
    ensures s[at..at + 8] == LittleEndian(8, v) <==> Le64(s, at) == v
  {
    EightDigits(v);
    var low, high := v % U32_SIZE, v / U32_SIZE;
    LowDigits(v);
    Le32Is(s, at, low);
    Le32Is(s, at + 4, high);
    assert s[at..at + 8] == s[at..at + 4] + s[at + 4..at + 8];
    SameHalves(s[at..at + 4], s[at + 4..at + 8], LittleEndian(4, low), LittleEndian(4, high));
  }

  lemma LowDigits(v: nat)
    ensures LittleEndian(4, v) == LittleEndian(4, v % U32_SIZE)
  {
    FourDigits(v);
    FourDigits(v % U32_SIZE);
    var w := v % U32_SIZE;
    assert v == U32_SIZE * (v / U32_SIZE) + w;
    assert v / 256 == 0x100_0000 * (v / U32_SIZE) + w / 256;
    assert v / 256 / 256 == 0x1_0000 * (v / U32_SIZE) + w / 256 / 256;
    assert v / 256 / 256 / 256 == 0x100 * (v / U32_SIZE) + w / 256 / 256 / 256;
  }

  lemma SameHalves(a: seq<byte>, b: seq<byte>, c: seq<byte>, d: seq<byte>)
    requires |a| == |c|
    ensures a + b == c + d <==> a == c && b == d
  {
    if a + b == c + d {
      assert a == (a + b)[..|a|] == c;
      assert b == (a + b)[|a|..] == d;
    }
  }

  /** A mask's digits are the places listed. */
  lemma {:induction false} MaskBits(listed: set<nat>, n: nat, k: nat)
    ensures Mask(listed, n) < PowerOfTwo(n)
    ensures k < n ==> (Bit(Mask(listed, n), k) <==> k in listed)
  {
    if n > 0 {
      MaskBits(listed, n - 1, k);
      var low, top := Mask(listed, n - 1), PowerOfTwo(n - 1);
      assert PowerOfTwo(n) == top + top;
      hide PowerOfTwo;
      TopDigitOf(low, top);
      if k < n - 1 {
        HighDigit(low, n - 1, k);
      }
    }
  }

  /** Adding a higher power of two leaves a digit alone. */
  lemma HighDigit(v: nat, n: nat, k: nat)
    requires k < n
    ensures Bit(v + PowerOfTwo(n), k) <==> Bit(v, k)
  {
    PowerSplits(n, k);
    var half := PowerOfTwo(n - k - 1);
    assert PowerOfTwo(n - k) == 2 * half;
    hide PowerOfTwo;
    EvenShift(v, PowerOfTwo(k), half, PowerOfTwo(n));
  }

  lemma {:induction false} PowerSplits(n: nat, k: nat)
    requires k <= n
    ensures PowerOfTwo(n) == PowerOfTwo(k) * PowerOfTwo(n - k)
  {
    if k > 0 {
      PowerSplits(n - 1, k - 1);
      assert PowerOfTwo(n) == 2 * PowerOfTwo(n - 1) && PowerOfTwo(k) == 2 * PowerOfTwo(k - 1);
      hide PowerOfTwo;
      TwiceProduct(PowerOfTwo(k - 1), PowerOfTwo(n - k));
    }
  }

  lemma HeldHeader(s: seq<byte>, formats: seq<nat>, entries: seq<Entry>, formatsAt: nat, entriesAt: nat)
    requires Holds(s, formats, entries, formatsAt, entriesAt)
    ensures HeaderAt(s, 0) == Header(1, 0, |formats|, formatsAt, |entries|, entriesAt)
  {
    hide Le32, LittleEndian, HoldsFormat, HoldsEntry;
    SixFields(s[..24], LittleEndian(4, 1), LittleEndian(4, 0), LittleEndian(4, |formats|), LittleEndian(4, formatsAt),
              LittleEndian(4, |entries|), LittleEndian(4, entriesAt));
    Le32Is(s, 0, 1);
    Le32Is(s, 4, 0);
    Le32Is(s, 8, |formats|);
    Le32Is(s, 12, formatsAt);
    Le32Is(s, 16, |entries|);
    Le32Is(s, 20, entriesAt);
    assert s[0..4] == s[..24][0..4] && s[4..8] == s[..24][4..8] && s[8..12] == s[..24][8..12];
    assert s[12..16] == s[..24][12..16] && s[16..20] == s[..24][16..20] && s[20..24] == s[..24][20..24];
  }

  lemma SixFields(s: seq<byte>, a: seq<byte>, b: seq<byte>, c: seq<byte>, d: seq<byte>, e: seq<byte>, f: seq<byte>)
    requires |a| == |b| == |c| == |d| == |e| == |f| == 4 && s == a + b + c + d + e + f
    ensures s[0..4] == a && s[4..8] == b && s[8..12] == c && s[12..16] == d && s[16..20] == e && s[20..24] == f
  {
  }

  /** A blob that holds a table is well formed, and the queries' answer is whether the
      pair is in that table. */
  lemma TableIsAnswered(s: seq<byte>, formats: seq<nat>, entries: seq<Entry>, formatsAt: nat, entriesAt: nat,
                        format: nat, modifier: nat)
    requires Holds(s, formats, entries, formatsAt, entriesAt)
    ensures WellFormed(s)
    ensures Supported(Some(s), format, modifier) <==> InTable(formats, entries, format, modifier)
  {
    HeldHeader(s, formats, entries, formatsAt, entriesAt);
    forall i: nat, j: nat | i < |formats| && j < |entries|
      ensures Hit(s, i, j, format, modifier) <==> Pairs(formats[i], i, entries[j], format, modifier)
    {
      HeldPair(s, formats, entries, formatsAt, entriesAt, i, j, format, modifier);
    }
    hide Hit, Pairs, HeaderAt, Holds;
    if i: nat, j: nat :| i < |formats| && j < |entries| && Pairs(formats[i], i, entries[j], format, modifier) {
      assert Hit(s, i, j, format, modifier);
    }
  }

  lemma HeldPair(s: seq<byte>, formats: seq<nat>, entries: seq<Entry>, formatsAt: nat, entriesAt: nat,
                 i: nat, j: nat, format: nat, modifier: nat)
    requires Holds(s, formats, entries, formatsAt, entriesAt) && i < |formats| && j < |entries|
    requires HeaderAt(s, 0) == Header(1, 0, |formats|, formatsAt, |entries|, entriesAt) && WellFormed(s)
    ensures Hit(s, i, j, format, modifier) <==> Pairs(formats[i], i, entries[j], format, modifier)
  {
    hide Le32, Le64, LittleEndian, HeaderAt, Bit;
    assert HoldsFormat(s, formatsAt + 4 * i, formats[i]) && HoldsEntry(s, entriesAt + 24 * j, entries[j]);
    Le32Is(s, formatsAt + 4 * i, formats[i]);
    HeldEntry(s, entriesAt + 24 * j, entries[j]);
    var e := entries[j];
    if i >= e.offset {
      MaskBits(e.listed, 64, i - e.offset);
    }
  }

  lemma HeldEntry(s: seq<byte>, at: nat, e: Entry)
    requires HoldsEntry(s, at, e)
    ensures RecordAt(s, at) == Record(Mask(e.listed, 64), e.offset, e.modifier)
  {
    MaskBits(e.listed, 64, 0);
    SixtyFour();
    hide Le32, Le64, LittleEndian, Mask, PowerOfTwo;
    Le64Is(s, at, Mask(e.listed, 64));
    Le32Is(s, at + 8, e.offset);
    Le64Is(s, at + 16, e.modifier);
  }

  lemma SixtyFour()
    ensures PowerOfTwo(64) == U64_SIZE
  {
    assert PowerOfTwo(4) == 16;
    Squared(4, 16);
    Squared(8, 0x100);
    Squared(16, 0x1_0000);
    Squared(32, 0x1_0000_0000);
  }

  lemma Squared(n: nat, v: nat)
    requires PowerOfTwo(n) == v
    ensures PowerOfTwo(2 * n) == v * v
  {
    PowerSplits(2 * n, n);
  }

  /** And every well-formed blob holds a table. */
  lemma WellFormedHolds(s: seq<byte>) returns (formats: seq<nat>, entries: seq<Entry>, formatsAt: nat, entriesAt: nat)
    requires WellFormed(s)
    ensures Holds(s, formats, entries, formatsAt, entriesAt)
  {
    var h := HeaderAt(s, 0);
    formatsAt, entriesAt := h.formatsOffset, h.modifiersOffset;
    formats := seq(h.countFormats, i requires 0 <= i < h.countFormats => Format(s, i));
    entries := seq(h.countModifiers, j requires 0 <= j < h.countModifiers => EntryOf(Modifier(s, j)));
    forall i | 0 <= i < |formats| ensures HoldsFormat(s, formatsAt + 4 * i, formats[i]) {
      Le32Is(s, formatsAt + 4 * i, formats[i]);
    }
    forall j | 0 <= j < |entries| ensures HoldsEntry(s, entriesAt + 24 * j, entries[j]) {
      EntryHeld(s, entriesAt + 24 * j);
    }
    HeaderHeld(s);
  }

  function EntryOf(r: Record): Entry {
    Entry(r.offset, (set k: nat | k < 64 && Bit(r.formats, k)), r.modifier)
  }

  lemma HeaderHeld(s: seq<byte>)
    requires |s| >= 24
    ensures var h := HeaderAt(s, 0);
      s[..24] == LittleEndian(4, h.version) + LittleEndian(4, h.flags) + LittleEndian(4, h.countFormats)
                 + LittleEndian(4, h.formatsOffset) + LittleEndian(4, h.countModifiers)
                 + LittleEndian(4, h.modifiersOffset)
  {
    hide Le32, LittleEndian;
    var h := HeaderAt(s, 0);
    Le32Is(s, 0, h.version);
    Le32Is(s, 4, h.flags);
    Le32Is(s, 8, h.countFormats);
    Le32Is(s, 12, h.formatsOffset);
    Le32Is(s, 16, h.countModifiers);
    Le32Is(s, 20, h.modifiersOffset);
    assert s[..24] == s[0..4] + s[4..8] + s[8..12] + s[12..16] + s[16..20] + s[20..24];
  }

  lemma EntryHeld(s: seq<byte>, at: nat)
    requires at + 24 <= |s|
    ensures HoldsEntry(s, at, EntryOf(RecordAt(s, at)))
  {
    var r := RecordAt(s, at);
    var e := EntryOf(r);
    SixtyFour();
    MaskOfBits(r.formats, e.listed, 64);
    hide Le32, Le64, LittleEndian, Mask, PowerOfTwo, Bit;
    Le64Is(s, at, r.formats);
    Le32Is(s, at + 8, r.offset);
    Le64Is(s, at + 16, r.modifier);
  }

  /** A number is the mask of its own digits. */
  lemma {:induction false} MaskOfBits(v: nat, listed: set<nat>, n: nat)
    requires forall k: nat | k < n :: k in listed <==> Bit(v, k)
    ensures Mask(listed, n) == v % PowerOfTwo(n)
    ensures v < PowerOfTwo(n) ==> Mask(listed, n) == v
  {
    hide PowerOfTwo, Bit;
    if n > 0 {
      MaskOfBits(v, listed, n - 1);
      TopDigit(v, n);
    } else {
      NoDigits(v);
    }
    if v < PowerOfTwo(n) {
      SmallRemainder(v, PowerOfTwo(n));
    }
  }

  lemma NoDigits(v: nat)
    ensures v % PowerOfTwo(0) == 0
  {
  }

  lemma SmallRemainder(v: nat, p: nat)
    requires v < p
    ensures v % p == v
  {
    DivIsUnique(v, p, 0);
  }

  lemma TopDigit(v: nat, n: nat)
    requires n > 0
    ensures v % PowerOfTwo(n) == v % PowerOfTwo(n - 1) + if Bit(v, n - 1) then PowerOfTwo(n - 1) else 0
  {
    assert PowerOfTwo(n) == 2 * PowerOfTwo(n - 1);
    hide PowerOfTwo;
    OneDigitMore(v, PowerOfTwo(n - 1));
  }

  /** What a blob supports, with nothing but the encoder: it holds a table with the pair. */
  lemma SupportedIsTable(blob: Blob, format: nat, modifier: nat)
    ensures Supported(blob, format, modifier) <==>
      blob.Some? && exists formats, entries, formatsAt, entriesAt ::
        Holds(blob.value, formats, entries, formatsAt, entriesAt) && InTable(formats, entries, format, modifier)
  {
    if Supported(blob, format, modifier) {
      var formats, entries, formatsAt, entriesAt := WellFormedHolds(blob.value);
      TableIsAnswered(blob.value, formats, entries, formatsAt, entriesAt, format, modifier);
    }
    if blob.Some? {
      if formats, entries, formatsAt, entriesAt :|
        Holds(blob.value, formats, entries, formatsAt, entriesAt) && InTable(formats, entries, format, modifier) {
        TableIsAnswered(blob.value, formats, entries, formatsAt, entriesAt, format, modifier);
      }
    }
  }

  /** The checks both queries make first. */
  method CheckedHeader(blob: Blob) returns (header: Option<Header>)
    ensures header.Some? <==> blob.Some? && WellFormed(blob.value)
    ensures header.Some? ==> header.value == HeaderAt(blob.value, 0)
  {
    header := ReadHeader(blob, 0);
    if header.None? {
      return;
    }
    var h := header.value;
    if h.version != 1 || h.flags != 0 {
      return None;
    }
    if !BlobHasRange(blob, h.formatsOffset, h.countFormats, FORMAT_SIZE)
       || !BlobHasRange(blob, h.modifiersOffset, h.countModifiers, RECORD_SIZE) {
      return None;
    }
  }

  /** Inside a well-formed blob no table read fails, and no offset wraps. */
  lemma TableReadsSucceed(s: seq<byte>, i: nat)
    requires WellFormed(s)
    ensures i < HeaderAt(s, 0).countFormats ==>
      ReadU32(Some(s), Wrap64(HeaderAt(s, 0).formatsOffset + Wrap64(i * FORMAT_SIZE))) == Some(Format(s, i))
    ensures i < HeaderAt(s, 0).countModifiers ==>
      ReadRecord(Some(s), Wrap64(HeaderAt(s, 0).modifiersOffset + Wrap64(i * RECORD_SIZE))) == Some(Modifier(s, i))
  {
    hide Le32, RecordAt, HeaderAt, BlobHasRange;
    var h := HeaderAt(s, 0);
    if i < h.countFormats {
      NoWrap(h.formatsOffset, i, FORMAT_SIZE);
    }
    if i < h.countModifiers {
      NoWrap(h.modifiersOffset, i, RECORD_SIZE);
    }
  }

  lemma NoWrap(offset: nat, i: nat, size: nat)
    requires offset < U32_SIZE && i < U32_SIZE && size <= 24
    ensures Wrap64(offset + Wrap64(i * size)) == offset + i * size
  {
    ProductGrows(i, size, 24);
  }

  /** The inner loop: does a modifier record list entry i? */
  method AnyRecordLists(blob: Blob, header: Header, i: nat, modifier: nat) returns (found: bool)
    requires blob.Some? && WellFormed(blob.value) && header == HeaderAt(blob.value, 0)
    requires i < header.countFormats
    ensures found <==> exists j: nat | j < header.countModifiers :: Lists(Modifier(blob.value, j), i, modifier)
  {
    hide WellFormed, HeaderAt, Lists, Modifier, ReadRecord;
    for j := 0 to header.countModifiers
      invariant forall k: nat | k < j :: !Lists(Modifier(blob.value, k), i, modifier)
    {
      TableReadsSucceed(blob.value, j);
      var record := ReadRecord(blob, Wrap64(header.modifiersOffset + Wrap64(j * RECORD_SIZE)));
      if record.None? {
        assert false;
      }
      assert record.value == Modifier(blob.value, j);
      ListsMeans(record.value, i, modifier);
      if record.value.modifier != modifier || i < record.value.offset {
        continue;
      }
      var bit := i - record.value.offset;
      if bit < 64 && Bit(record.value.formats, bit) {
        return true;
      }
    }
    return false;
  }

  lemma ListsMeans(r: Record, i: nat, modifier: nat)
    ensures Lists(r, i, modifier) <==>
      r.modifier == modifier && r.offset <= i < r.offset + 64 && Bit(r.formats, i - r.offset)
  {
  }

  /** in_formats_blob_supports_modifier of the compositor: gives up when a read fails. */
  method SupportsModifier(blob: Blob, format: nat, modifier: nat) returns (supported: bool)
    ensures supported <==> Supported(blob, format, modifier)
  {
    hide WellFormed, HeaderAt, Lists, Modifier, Format, ReadU32;
    var header := CheckedHeader(blob);
    if header.None? {
      return false;
    }
    for i := 0 to header.value.countFormats
      invariant forall p: nat, j: nat | p < i && j < header.value.countModifiers ::
        !Hit(blob.value, p, j, format, modifier)
    {
      TableReadsSucceed(blob.value, i);
      var entry := ReadU32(blob, Wrap64(header.value.formatsOffset + Wrap64(i * FORMAT_SIZE)));
      if entry.None? {
        assert false;
      }
      if entry.value != format {
        continue;
      }
      var found := AnyRecordLists(blob, header.value, i, modifier);
      if found {
        var j: nat :| j < header.value.countModifiers && Lists(Modifier(blob.value, j), i, modifier);
        assert Hit(blob.value, i, j, format, modifier);
        return true;
      }
    }
    return false;
  }

  /** The video plane's own copy passes over an entry it cannot read; as no read fails,
      it answers the same. */
  method PlaneSupportsModifier(blob: Blob, format: nat, modifier: nat) returns (supported: bool)
    ensures supported <==> Supported(blob, format, modifier)
  {
    hide WellFormed, HeaderAt, Lists, Modifier, Format, ReadU32;
    var header := CheckedHeader(blob);
    if header.None? {
      return false;
    }
    for i := 0 to header.value.countFormats
      invariant forall p: nat, j: nat | p < i && j < header.value.countModifiers ::
        !Hit(blob.value, p, j, format, modifier)
    {
      TableReadsSucceed(blob.value, i);
      var entry := ReadU32(blob, Wrap64(header.value.formatsOffset + Wrap64(i * FORMAT_SIZE)));
      if entry.None? || entry.value != format {
        continue;
      }
      var found := AnyRecordLists(blob, header.value, i, modifier);
      if found {
        var j: nat :| j < header.value.countModifiers && Lists(Modifier(blob.value, j), i, modifier);
        assert Hit(blob.value, i, j, format, modifier);
        return true;
      }
    }
    return false;
  }
}
