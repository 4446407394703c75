// The checksum of the MAVLink packet senders: the byte-wise code, the bit-wise
// reference it refines, and the transmission errors its 16 bits always reveal.
//
// Facts about bit patterns are proved one shift or one width change at a time;
// everything above them hides the patterns and reasons about named functions.
module MavlinkCrc {

  // ----- One byte ------------------------------------------------------------

  /** The mixed byte of the C++ code, kept in 8 bits. */
  function NarrowMix(data: bv8, crc: bv16): bv8 {
    var d := data ^ ((crc & 0xff) as bv8);
    d ^ (d << 4)
  }

  function Update(crc: bv16, e: bv16): bv16 {
    (crc >> 8) ^ (e << 8) ^ (e << 3) ^ (e >> 4)
  }

  /** One byte in the 8- and 16-bit registers of the C++ code. */
  function Accumulate(data: bv8, crc: bv16): bv16 {
    Update(crc, NarrowMix(data, crc) as bv16)
  }

  /** The mixed byte of the emulator's unbounded integers, cut to 8 bits by hand. */
  function WideMix(value: bv32, crc: bv32): bv32 {
    var v := value ^ (crc & 0xff);
    v ^ ((v << 4) & 0xff)
  }

  function WideUpdate(crc: bv32, w: bv32): bv32 {
    ((crc >> 8) ^ (w << 8) ^ (w << 3) ^ (w >> 4)) & 0xffff
  }

  /** The same byte in the emulator. No intermediate value needs more than 32
      bits; the last mask cuts the register to 16. */
  function AccumulateWide(value: bv32, crc: bv32): bv32 {
    WideUpdate(crc, WideMix(value, crc))
  }

  function WideByte(data: bv8): bv32 { data as bv32 }

  function Widen(crc: bv16): bv32 { crc as bv32 }

  /** The two bytes a 16-bit little-endian field takes of a wide register. */
  function Narrow(crc: bv32): bv16 { (crc & 0xffff) as bv16 }

  /** One shift of the reflected polynomial x^16 + x^12 + x^5 + 1. */
  function BitStep(crc: bv16): bv16 {
    if crc & 1 == 1 then (crc >> 1) ^ 0x8408 else crc >> 1
  }

  function FourShifts(crc: bv16): bv16 {
    BitStep(BitStep(BitStep(BitStep(crc))))
  }

  function MixIn(data: bv8, crc: bv16): bv16 { crc ^ (data as bv16) }

  /** The bit-wise checksum of the MAVLink guide ("Checksum"): mix the byte into
      the low end, then shift once for each of its bits. */
  function ShiftIn(data: bv8, crc: bv16): bv16 {
    FourShifts(FourShifts(MixIn(data, crc)))
  }

  // ----- The update as a function of the mixed byte ----------------------------

  function Lo(x: bv16): bv16 { x & 0xff }

  function Hi(x: bv16): bv16 { x >> 8 }

  function Spread(x: bv16): bv16 { (x ^ (x << 4)) & 0xff }

  function Mix(data: bv8, crc: bv16): bv16 { Spread(Lo(MixIn(data, crc))) }

  lemma MixBitPattern(data: bv8, crc: bv16)
    ensures
      var d := data ^ ((crc & 0xff) as bv8);
      var x := (crc ^ (data as bv16)) & 0xff;
      (d ^ (d << 4)) as bv16 == (x ^ (x << 4)) & 0xff
  {
  }

  lemma NarrowMixIsMix(data: bv8, crc: bv16)
    ensures NarrowMix(data, crc) as bv16 == Mix(data, crc)
  {
    MixBitPattern(data, crc);
  }

  lemma AccumulateIsUpdate(data: bv8, crc: bv16)
    ensures Accumulate(data, crc) == Update(crc, Mix(data, crc))
  {
    hide NarrowMix, Mix, Update;
    NarrowMixIsMix(data, crc);
  }

  // ----- Byte-wise equals bit-wise ---------------------------------------------

  function LinearStep(c: bv16): bv16 {
    (c >> 1) ^ ((c & 1) << 15) ^ ((c & 1) << 10) ^ ((c & 1) << 3)
  }

  function FourLinear(c: bv16): bv16 {
    (c >> 4) ^ ((c & 0xf) << 12) ^ ((c & 0xf) << 7) ^ (c & 0xf)
  }

  lemma ShiftOutOne(c: bv16)
    requires c & 1 == 1
    ensures (c >> 1) ^ 0x8408 == (c >> 1) ^ ((c & 1) << 15) ^ ((c & 1) << 10) ^ ((c & 1) << 3)
  {
  }

  lemma ShiftOutZero(c: bv16)
    requires c & 1 != 1
    ensures c >> 1 == (c >> 1) ^ ((c & 1) << 15) ^ ((c & 1) << 10) ^ ((c & 1) << 3)
  {
  }

  lemma BitStepIsLinear(c: bv16)
    ensures BitStep(c) == LinearStep(c)
  {
    if c & 1 == 1 {
      ShiftOutOne(c);
    } else {
      ShiftOutZero(c);
    }
  }

  lemma FourStepsBitPattern(c: bv16)
    ensures
      var c1 := (c >> 1) ^ ((c & 1) << 15) ^ ((c & 1) << 10) ^ ((c & 1) << 3);
      var c2 := (c1 >> 1) ^ ((c1 & 1) << 15) ^ ((c1 & 1) << 10) ^ ((c1 & 1) << 3);
      var c3 := (c2 >> 1) ^ ((c2 & 1) << 15) ^ ((c2 & 1) << 10) ^ ((c2 & 1) << 3);
      (c3 >> 1) ^ ((c3 & 1) << 15) ^ ((c3 & 1) << 10) ^ ((c3 & 1) << 3)
        == (c >> 4) ^ ((c & 0xf) << 12) ^ ((c & 0xf) << 7) ^ (c & 0xf)
  {
  }

  lemma FourLinearSteps(c: bv16)
    ensures LinearStep(LinearStep(LinearStep(LinearStep(c)))) == FourLinear(c)
  {
    FourStepsBitPattern(c);
  }

  lemma FourShiftsIsLinear(c: bv16)
    ensures FourShifts(c) == FourLinear(c)
  {
    hide BitStep, LinearStep, FourLinear;
    var c1 := BitStep(c);
    var c2 := BitStep(c1);
    var c3 := BitStep(c2);
    BitStepIsLinear(c);
    BitStepIsLinear(c1);
    BitStepIsLinear(c2);
    BitStepIsLinear(c3);
    FourLinearSteps(c);
  }

  lemma EightStepsBitPattern(c: bv16, n: bv16, e: bv16)
    ensures
      && n == (c >> 4) ^ ((c & 0xf) << 12) ^ ((c & 0xf) << 7) ^ (c & 0xf)
      && e == ((c & 0xff) ^ ((c & 0xff) << 4)) & 0xff
      ==> (n >> 4) ^ ((n & 0xf) << 12) ^ ((n & 0xf) << 7) ^ (n & 0xf) == (c >> 8) ^ (e << 8) ^ (e << 3) ^ (e >> 4)
  {
  }

  lemma HighHalfKept(crc: bv16, d: bv16)
    ensures d < 256 ==> (crc ^ d) >> 8 == crc >> 8
  {
  }

  lemma EightLinear(c: bv16)
    ensures FourLinear(FourLinear(c)) == Update(c, Spread(Lo(c)))
  {
    hide FourLinear, Update, Spread, Lo;
    var n, e := FourLinear(c), Spread(Lo(c));
    FourLinearIs(c);
    FourLinearIs(n);
    UpdateIs(c, e);
    SpreadIs(c);
    EightStepsBitPattern(c, n, e);
  }

  lemma FourLinearIs(c: bv16)
    ensures FourLinear(c) == (c >> 4) ^ ((c & 0xf) << 12) ^ ((c & 0xf) << 7) ^ (c & 0xf)
  {
  }

  lemma UpdateIs(c: bv16, e: bv16)
    ensures Update(c, e) == (c >> 8) ^ (e << 8) ^ (e << 3) ^ (e >> 4)
  {
  }

  lemma SpreadIs(c: bv16)
    ensures Spread(Lo(c)) == ((c & 0xff) ^ ((c & 0xff) << 4)) & 0xff
  {
  }

  lemma UpdateReadsHighHalf(c: bv16, e: bv16, crc: bv16)
    requires c >> 8 == crc >> 8
    ensures Update(c, e) == Update(crc, e)
  {
  }

  lemma EightLinearSteps(data: bv8, crc: bv16)
    ensures FourLinear(FourLinear(MixIn(data, crc))) == Update(crc, Mix(data, crc))
  {
    hide FourLinear, Update, Spread, Lo;
    EightLinear(MixIn(data, crc));
    HighHalfKept(crc, data as bv16);
    UpdateReadsHighHalf(MixIn(data, crc), Mix(data, crc), crc);
  }

  lemma AccumulateIsEightShifts(data: bv8, crc: bv16)
    ensures Accumulate(data, crc) == ShiftIn(data, crc)
  {
    hide Accumulate, FourShifts, FourLinear, Update, MixIn, Mix;
    var c := MixIn(data, crc);
    FourShiftsIsLinear(c);
    FourShiftsIsLinear(FourShifts(c));
    AccumulateIsUpdate(data, crc);
    EightLinearSteps(data, crc);
  }

  // ----- C++ agrees with Python ------------------------------------------------

  lemma WideMixBitPattern(data: bv8, crc: bv16)
    ensures
      var d := data ^ ((crc & 0xff) as bv8);
      var v := (data as bv32) ^ ((crc as bv32) & 0xff);
      (d ^ (d << 4)) as bv32 == v ^ ((v << 4) & 0xff)
  {
  }

  lemma WideMixAgrees(data: bv8, crc: bv16)
    ensures WideMix(WideByte(data), Widen(crc)) == WideByte(NarrowMix(data, crc))
  {
    WideMixBitPattern(data, crc);
  }

  lemma WideUpdateBitPattern(e: bv8, c: bv16)
    ensures ((c >> 8) ^ ((e as bv16) << 8) ^ ((e as bv16) << 3) ^ ((e as bv16) >> 4)) as bv32
         == (((c as bv32) >> 8) ^ ((e as bv32) << 8) ^ ((e as bv32) << 3) ^ ((e as bv32) >> 4)) & 0xffff
  {
  }

  lemma WideUpdateAgrees(e: bv8, c: bv16)
    ensures WideUpdate(Widen(c), WideByte(e)) == Widen(Update(c, e as bv16))
  {
    WideUpdateBitPattern(e, c);
  }

  lemma WideAgrees(data: bv8, crc: bv16)
    ensures AccumulateWide(WideByte(data), Widen(crc)) == Widen(Accumulate(data, crc))
  {
    hide NarrowMix, WideMix, Update, WideUpdate, WideByte, Widen;
    WideMixAgrees(data, crc);
    WideUpdateAgrees(NarrowMix(data, crc), crc);
  }

  // ----- Whole messages --------------------------------------------------------

  /** The register after a message, as both senders compute it. */
  function Crc(s: seq<bv8>, crc: bv16): bv16 {
    if s == [] then crc else Crc(s[1..], Accumulate(s[0], crc))
  }

  function CrcWide(s: seq<bv8>, crc: bv32): bv32 {
    if s == [] then crc else CrcWide(s[1..], AccumulateWide(WideByte(s[0]), crc))
  }

  function CrcBitwise(s: seq<bv8>, crc: bv16): bv16 {
    if s == [] then crc else CrcBitwise(s[1..], ShiftIn(s[0], crc))
  }

  lemma NarrowWidened(crc: bv16)
    ensures Narrow(Widen(crc)) == crc
  {
  }

  /** The byte-wise checksum is the bit-wise one. */
  lemma {:induction false} CrcIsBitwise(s: seq<bv8>, crc: bv16)
    ensures Crc(s, crc) == CrcBitwise(s, crc)
  {
    hide Accumulate, ShiftIn;
    if s != [] {
      AccumulateIsEightShifts(s[0], crc);
      CrcIsBitwise(s[1..], Accumulate(s[0], crc));
    }
  }

  /** The C++ sender and the emulator compute the same checksum. */
  lemma {:induction false} CrcIsWide(s: seq<bv8>, crc: bv16)
    ensures CrcWide(s, Widen(crc)) == Widen(Crc(s, crc))
  {
    hide Accumulate, AccumulateWide, WideByte, Widen;
    if s != [] {
      WideAgrees(s[0], crc);
      CrcIsWide(s[1..], Accumulate(s[0], crc));
    }
  }

  lemma {:induction false} CrcConcat(s: seq<bv8>, t: seq<bv8>, crc: bv16)
    ensures Crc(s + t, crc) == Crc(t, Crc(s, crc))
  {
    hide Accumulate;
    if s == [] {
      assert s + t == t;
    } else {
      assert (s + t)[1..] == s[1..] + t;
      CrcConcat(s[1..], t, Accumulate(s[0], crc));
    }
  }

  lemma CrcPair(a: bv8, b: bv8, crc: bv16)
    ensures Crc([a, b], crc) == Accumulate(b, Accumulate(a, crc))
  {
    hide Accumulate;
    assert [a, b][1..] == [b];
    assert Crc([b], Accumulate(a, crc)) == Accumulate(b, Accumulate(a, crc));
  }

  lemma CrcOneMore(s: seq<bv8>, b: bv8, crc: bv16)
    ensures Crc(s + [b], crc) == Accumulate(b, Crc(s, crc))
  {
    hide Accumulate;
    CrcConcat(s, [b], crc);
    assert Crc([b], Crc(s, crc)) == Accumulate(b, Crc(s, crc));
  }

  lemma CrcNext(s: seq<bv8>, k: nat, before: bv16, after: bv16)
    requires k < |s| && Crc(s[..k], 0xffff) == before && Accumulate(s[k], before) == after
    ensures Crc(s[..k + 1], 0xffff) == after
  {
    hide Accumulate;
    CrcOneMore(s[..k], s[k], 0xffff);
    assert s[..k + 1] == s[..k] + [s[k]];
  }

  /** The check value of CRC-16/MCRF4XX: the register after the digits 1 to 9. */
  lemma CheckValue()
    ensures Crc([0x31, 0x32, 0x33, 0x34, 0x35, 0x36, 0x37, 0x38, 0x39], 0xffff) == 0x6f91
  {
    hide Crc;
    var s: seq<bv8> := [0x31, 0x32, 0x33, 0x34, 0x35, 0x36, 0x37, 0x38, 0x39];
    EmptyCrc();
    CrcNext(s, 0, 0xffff, 0x2f8d);
    CrcNext(s, 1, 0x2f8d, 0x4d53);
    CrcNext(s, 2, 0x4d53, 0x634b);
    CrcNext(s, 3, 0x634b, 0x8b13);
    CrcNext(s, 4, 0x8b13, 0x44bf);
    CrcNext(s, 5, 0x44bf, 0x198d);
    CrcNext(s, 6, 0x198d, 0x1ac8);
    CrcNext(s, 7, 0x1ac8, 0xf795);
    CrcNext(s, 8, 0xf795, 0x6f91);
    assert s[..9] == s;
  }

  lemma EmptyCrc()
    ensures Crc([], 0xffff) == 0xffff
  {
  }

  // ----- Errors the checksum reveals -------------------------------------------

  /** What the mixed byte leaves in the high half of the register. */
  function Folded(e: bv16): bv16 { e ^ (e >> 5) }

  function Undone(r: bv16, e: bv16): bv16 { r ^ (e << 8) ^ (e << 3) ^ (e >> 4) }

  lemma FoldedBits(e: bv16)
    ensures e < 256 ==> (e ^ (e >> 5)) ^ ((e ^ (e >> 5)) >> 5) == e
  {
  }

  lemma FoldedTwice(e: bv16)
    requires e < 256
    ensures Folded(Folded(e)) == e
  {
    FoldedBits(e);
  }

  lemma UpdateHighBits(c: bv16, e: bv16)
    ensures e < 256 ==> ((c >> 8) ^ (e << 8) ^ (e << 3) ^ (e >> 4)) >> 8 == e ^ (e >> 5)
  {
  }

  lemma UpdateHigh(c: bv16, e: bv16)
    requires e < 256
    ensures Hi(Update(c, e)) == Folded(e)
  {
    UpdateHighBits(c, e);
  }

  lemma UndoneBits(c: bv16, e: bv16)
    ensures ((c >> 8) ^ (e << 8) ^ (e << 3) ^ (e >> 4)) ^ (e << 8) ^ (e << 3) ^ (e >> 4) == c >> 8
  {
  }

  lemma UpdateUndone(c: bv16, e: bv16)
    ensures Undone(Update(c, e), e) == Hi(c)
  {
    UndoneBits(c, e);
  }

  /** The update can be run backwards as far as the mixed byte and the high half. */
  lemma UpdateTells(c1: bv16, e1: bv16, c2: bv16, e2: bv16)
    requires e1 < 256 && e2 < 256 && Update(c1, e1) == Update(c2, e2)
    ensures e1 == e2 && Hi(c1) == Hi(c2)
  {
    hide Update, Hi, Undone, Folded;
    UpdateHigh(c1, e1);
    UpdateHigh(c2, e2);
    FoldedTwice(e1);
    FoldedTwice(e2);
    UpdateUndone(c1, e1);
    UpdateUndone(c2, e2);
  }

  lemma HighHalfTellsMix(c: bv16, e1: bv16, e2: bv16)
    requires e1 < 256 && e2 < 256 && Hi(Update(c, e1)) == Hi(Update(c, e2))
    ensures e1 == e2
  {
    hide Update, Hi, Folded;
    UpdateHigh(c, e1);
    UpdateHigh(c, e2);
    FoldedTwice(e1);
    FoldedTwice(e2);
  }

  lemma SpreadTells(x1: bv16, x2: bv16)
    ensures x1 < 256 && x2 < 256 && (x1 ^ (x1 << 4)) & 0xff == (x2 ^ (x2 << 4)) & 0xff ==> x1 == x2
  {
  }

  lemma LowByteBound(x: bv16)
    ensures x & 0xff < 256
  {
  }

  lemma MixTells(d1: bv8, c1: bv16, d2: bv8, c2: bv16)
    requires Mix(d1, c1) == Mix(d2, c2)
    ensures Lo(MixIn(d1, c1)) == Lo(MixIn(d2, c2))
  {
    hide MixIn;
    LowByteBound(MixIn(d1, c1));
    LowByteBound(MixIn(d2, c2));
    SpreadTells(Lo(MixIn(d1, c1)), Lo(MixIn(d2, c2)));
  }

  lemma MixIsByte(data: bv8, crc: bv16)
    ensures Mix(data, crc) < 256
  {
    hide Lo, MixIn;
    var x := Lo(MixIn(data, crc));
    LowByteBound(x ^ (x << 4));
  }

  lemma LowHalfTellsByte(c: bv16, d1: bv8, d2: bv8)
    ensures (c ^ (d1 as bv16)) & 0xff == (c ^ (d2 as bv16)) & 0xff ==> d1 == d2
  {
  }

  lemma HalvesTellRegister(c1: bv16, c2: bv16, d: bv16)
    ensures (c1 ^ d) & 0xff == (c2 ^ d) & 0xff && c1 >> 8 == c2 >> 8 ==> c1 == c2
  {
  }

  lemma AccumulateTells(d1: bv8, c1: bv16, d2: bv8, c2: bv16)
    requires Accumulate(d1, c1) == Accumulate(d2, c2)
    ensures Mix(d1, c1) == Mix(d2, c2) && Hi(c1) == Hi(c2)
  {
    hide Accumulate, Mix, Update, Hi;
    AccumulateIsUpdate(d1, c1);
    AccumulateIsUpdate(d2, c2);
    MixIsByte(d1, c1);
    MixIsByte(d2, c2);
    UpdateTells(c1, Mix(d1, c1), c2, Mix(d2, c2));
  }

  lemma HighHalfTells(c: bv16, d1: bv8, d2: bv8)
    requires Hi(Accumulate(d1, c)) == Hi(Accumulate(d2, c))
    ensures Mix(d1, c) == Mix(d2, c)
  {
    hide Accumulate, Mix, Update, Hi;
    AccumulateIsUpdate(d1, c);
    AccumulateIsUpdate(d2, c);
    MixIsByte(d1, c);
    MixIsByte(d2, c);
    HighHalfTellsMix(c, Mix(d1, c), Mix(d2, c));
  }

  lemma RegisterMatters(d: bv8, c1: bv16, c2: bv16)
    requires Lo(MixIn(d, c1)) == Lo(MixIn(d, c2)) && Hi(c1) == Hi(c2)
    ensures c1 == c2
  {
    HalvesTellRegister(c1, c2, d as bv16);
  }

  lemma MixedByteMatters(c: bv16, d1: bv8, d2: bv8)
    requires Lo(MixIn(d1, c)) == Lo(MixIn(d2, c))
    ensures d1 == d2
  {
    LowHalfTellsByte(c, d1, d2);
  }

  lemma ByteMatters(c: bv16, d1: bv8, d2: bv8)
    requires Mix(d1, c) == Mix(d2, c)
    ensures d1 == d2
  {
    hide Mix, MixIn, Lo;
    MixTells(d1, c, d2, c);
    MixedByteMatters(c, d1, d2);
  }

  /** Different registers never meet again under the same byte. */
  lemma StateMatters(data: bv8, c1: bv16, c2: bv16)
    requires Accumulate(data, c1) == Accumulate(data, c2)
    ensures c1 == c2
  {
    hide Accumulate, Mix, MixIn, Lo, Hi;
    AccumulateTells(data, c1, data, c2);
    MixTells(data, c1, data, c2);
    RegisterMatters(data, c1, c2);
  }

  /** Two bytes in a row are determined by the registers around them. */
  lemma WindowMatters(c: bv16, a1: bv8, b1: bv8, a2: bv8, b2: bv8)
    requires Accumulate(b1, Accumulate(a1, c)) == Accumulate(b2, Accumulate(a2, c))
    ensures a1 == a2 && b1 == b2
  {
    hide Accumulate, Mix, Hi;
    AccumulateTells(b1, Accumulate(a1, c), b2, Accumulate(a2, c));
    HighHalfTells(c, a1, a2);
    ByteMatters(c, a1, a2);
    ByteMatters(Accumulate(a1, c), b1, b2);
  }

  lemma {:induction false} RegistersStayApart(s: seq<bv8>, c1: bv16, c2: bv16)
    requires Crc(s, c1) == Crc(s, c2)
    ensures c1 == c2
  {
    hide Accumulate;
    if s != [] {
      RegistersStayApart(s[1..], Accumulate(s[0], c1), Accumulate(s[0], c2));
      StateMatters(s[0], c1, c2);
    }
  }

  /** A burst error: a message whose damage is confined to two adjacent bytes
      has a different checksum, wherever the window lies. */
  lemma BurstIsRevealed(before: seq<bv8>, a1: bv8, b1: bv8, a2: bv8, b2: bv8, after: seq<bv8>, crc: bv16)
    requires a1 != a2 || b1 != b2
    ensures Crc(before + [a1, b1] + after, crc) != Crc(before + [a2, b2] + after, crc)
  {
    hide Accumulate;
    var c := Crc(before, crc);
    CrcConcat(before + [a1, b1], after, crc);
    CrcConcat(before + [a2, b2], after, crc);
    CrcConcat(before, [a1, b1], crc);
    CrcConcat(before, [a2, b2], crc);
    CrcPair(a1, b1, c);
    CrcPair(a2, b2, c);
    if Crc(before + [a1, b1] + after, crc) == Crc(before + [a2, b2] + after, crc) {
      RegistersStayApart(after, Crc([a1, b1], c), Crc([a2, b2], c));
      WindowMatters(c, a1, b1, a2, b2);
    }
  }

  /** Two equal-length messages that differ in exactly one byte. */
  lemma OneByteIsRevealed(s: seq<bv8>, i: nat, b: bv8, crc: bv16)
    requires i < |s| && b != s[i]
    ensures Crc(s[i := b], crc) != Crc(s, crc)
  {
    hide Accumulate;
    if i + 1 < |s| {
      assert s == s[..i] + [s[i], s[i + 1]] + s[i + 2..];
      assert s[i := b] == s[..i] + [b, s[i + 1]] + s[i + 2..];
      BurstIsRevealed(s[..i], s[i], s[i + 1], b, s[i + 1], s[i + 2..], crc);
    } else {
      // A byte put after the last one makes up the window.
      assert s + [0] == s[..i] + [s[i], 0] + [];
      assert s[i := b] + [0] == s[..i] + [b, 0] + [];
      BurstIsRevealed(s[..i], s[i], 0, b, 0, [], crc);
      CrcConcat(s, [0], crc);
      CrcConcat(s[i := b], [0], crc);
    }
  }

  // ----- Parity: odd numbers of flipped bits -------------------------------------

  predicate OddNibble(x: bv16) {
    (x & 1 != 0) != ((x & 2 != 0) != ((x & 4 != 0) != (x & 8 != 0)))
  }

  /** Is an odd number of the bits of x set? */
  predicate Odd(x: bv16) {
    OddNibble(x) != (OddNibble(x >> 4) != (OddNibble(x >> 8) != OddNibble(x >> 12)))
  }

  lemma NibbleOfXor(x: bv16, y: bv16)
    ensures OddNibble(x ^ y) == (OddNibble(x) != OddNibble(y))
  {
  }

  lemma NibbleOfXor4(x: bv16, y: bv16)
    ensures OddNibble((x ^ y) >> 4) == (OddNibble(x >> 4) != OddNibble(y >> 4))
  {
  }

  lemma NibbleOfXor8(x: bv16, y: bv16)
    ensures OddNibble((x ^ y) >> 8) == (OddNibble(x >> 8) != OddNibble(y >> 8))
  {
  }

  lemma NibbleOfXor12(x: bv16, y: bv16)
    ensures OddNibble((x ^ y) >> 12) == (OddNibble(x >> 12) != OddNibble(y >> 12))
  {
  }

  lemma OddOfXor(x: bv16, y: bv16)
    ensures Odd(x ^ y) == (Odd(x) != Odd(y))
  {
    hide OddNibble;
    NibbleOfXor(x, y);
    NibbleOfXor4(x, y);
    NibbleOfXor8(x, y);
    NibbleOfXor12(x, y);
  }

  lemma OddOfHalf(c: bv16)
    ensures Odd(c >> 1) == (Odd(c) != (c & 1 == 1))
  {
  }

  lemma OddOfPolynomial()
    ensures Odd(0x8408)
  {
  }

  lemma BitStepKeepsParity(c: bv16)
    ensures Odd(BitStep(c)) == Odd(c)
  {
    hide Odd;
    OddOfHalf(c);
    OddOfXor(c >> 1, 0x8408);
    OddOfPolynomial();
  }

  lemma FourShiftsKeepParity(c: bv16)
    ensures Odd(FourShifts(c)) == Odd(c)
  {
    hide BitStep, Odd;
    BitStepKeepsParity(c);
    BitStepKeepsParity(BitStep(c));
    BitStepKeepsParity(BitStep(BitStep(c)));
    BitStepKeepsParity(BitStep(BitStep(BitStep(c))));
  }

  lemma OddOfMixIn(data: bv8, crc: bv16)
    ensures Odd(MixIn(data, crc)) == (Odd(crc) != Odd(data as bv16))
  {
    hide Odd;
    OddOfXor(crc, data as bv16);
  }

  /** Is an odd number of the bits of a message set? */
  predicate OddMessage(s: seq<bv8>) {
    s != [] && Odd(s[0] as bv16) != OddMessage(s[1..])
  }

  lemma {:induction false} CrcKeepsParity(s: seq<bv8>, crc: bv16)
    ensures Odd(Crc(s, crc)) == (Odd(crc) != OddMessage(s))
  {
    hide Accumulate, FourShifts, MixIn, Odd;
    if s != [] {
      var c := MixIn(s[0], crc);
      AccumulateIsEightShifts(s[0], crc);
      FourShiftsKeepParity(c);
      FourShiftsKeepParity(FourShifts(c));
      OddOfMixIn(s[0], crc);
      CrcKeepsParity(s[1..], Accumulate(s[0], crc));
    }
  }

  /** An odd number of flipped bits, spread anywhere, changes the checksum. */
  lemma OddErrorsAreRevealed(s: seq<bv8>, t: seq<bv8>, crc: bv16)
    requires OddMessage(s) != OddMessage(t)
    ensures Crc(s, crc) != Crc(t, crc)
  {
    hide Odd;
    CrcKeepsParity(s, crc);
    CrcKeepsParity(t, crc);
  }

  // ----- The trailer -------------------------------------------------------------

  function LowByte(crc: bv16): bv8 { (crc & 0xff) as bv8 }

  function HighByte(crc: bv16): bv8 { ((crc >> 8) & 0xff) as bv8 }

  lemma OwnByteCancels(crc: bv16)
    ensures
      var d := ((crc & 0xff) as bv8) ^ ((crc & 0xff) as bv8);
      d ^ (d << 4) == 0
  {
  }

  lemma FeedingLowByte(crc: bv16)
    ensures Accumulate(LowByte(crc), crc) == Hi(crc)
  {
    OwnByteCancels(crc);
    UpdateByNothing(crc);
  }

  lemma UpdateByNothing(crc: bv16)
    ensures Update(crc, 0) == Hi(crc)
  {
  }

  lemma HighHalfOnly(crc: bv16)
    ensures LowByte(Hi(crc)) == HighByte(crc) && Hi(Hi(crc)) == 0
  {
  }

  /** Feeding a register its own bytes, low byte first as both senders append
      them, leaves zero: the residue a receiver can test for. */
  lemma TrailerLeavesZero(crc: bv16)
    ensures Crc([LowByte(crc), HighByte(crc)], crc) == 0
  {
    hide Accumulate, LowByte, HighByte, Hi;
    FeedingLowByte(crc);
    FeedingLowByte(Hi(crc));
    HighHalfOnly(crc);
    CrcPair(LowByte(crc), HighByte(crc), crc);
  }

  lemma BytesTellRegister(c1: bv16, c2: bv16)
    ensures LowByte(c1) == LowByte(c2) && HighByte(c1) == HighByte(c2) ==> c1 == c2
  {
  }

  /** A receiver's test: body, extra byte and trailer together leave zero. */
  predicate Accepts(body: seq<bv8>, trailer: seq<bv8>) {
    Crc(body + trailer, 0xffff) == 0
  }

  /** The trailer the senders append is the only pair of bytes the test accepts. */
  lemma TrailerIsUnique(body: seq<bv8>, lo: bv8, hi: bv8)
    ensures var crc := Crc(body, 0xffff);
            Accepts(body, [lo, hi]) <==> lo == LowByte(crc) && hi == HighByte(crc)
  {
    hide Accumulate, LowByte, HighByte;
    var crc := Crc(body, 0xffff);
    CrcConcat(body, [lo, hi], 0xffff);
    TrailerLeavesZero(crc);
    CrcPair(lo, hi, crc);
    CrcPair(LowByte(crc), HighByte(crc), crc);
    if Crc([lo, hi], crc) == 0 {
      WindowMatters(crc, lo, hi, LowByte(crc), HighByte(crc));
    }
  }
}
