// Where a video frame goes on the display: as large as it fits without changing its
// shape, centred. Both the compositor and the direct video plane compute it this way,
// in 32-bit unsigned integers with 64-bit products.
module Letterbox {
  import opened Arithmetic
  import opened Bytes

  datatype Rect = Rect(x: u32, y: u32, width: u32, height: u32)

  function Scaled(side: u32, times: u32, per: u32): nat
    requires per > 0
  {
    Wrap64(side * times) / per
  }

  function Destination(frameWidth: u32, frameHeight: u32, displayWidth: u32, displayHeight: u32): Rect {
    if frameWidth == 0 || frameHeight == 0 || displayWidth == 0 || displayHeight == 0 then
      Rect(0, 0, displayWidth, displayHeight)
    else
      var scaledWidth := Scaled(displayHeight, frameWidth, frameHeight);
      if scaledWidth <= displayWidth then
        var width := Wrap32(Max(1, scaledWidth));
        Rect(Wrap32(displayWidth - width) / 2, 0, width, displayHeight)
      else
        var height := Wrap32(Max(1, Scaled(displayWidth, frameHeight, frameWidth)));
        Rect(0, Wrap32(displayHeight - height) / 2, displayWidth, height)
  }

  /** q is n / d rounded down, but at least 1. */
  predicate RoundedDown(q: int, n: int, d: int) {
    q >= 1 && n < (q + 1) * d && (q * d <= n || q == 1)
  }

  /** A picture of this size fills the display in one direction, and in the other has
      the size its shape asks for. */
  predicate Fills(width: int, height: int, frameWidth: int, frameHeight: int, displayWidth: int, displayHeight: int) {
    if displayHeight * frameWidth < (displayWidth + 1) * frameHeight then
      height == displayHeight && RoundedDown(width, displayHeight * frameWidth, frameHeight)
    else
      width == displayWidth && RoundedDown(height, displayWidth * frameHeight, frameWidth)
  }

  predicate Centred(offset: int, size: int, display: int) {
    offset >= 0 && 0 <= (display - offset - size) - offset <= 1
  }

  /** No product, difference or cast wraps: the picture lies inside the display, is
      centred to within one pixel, fills one direction, and keeps the frame's shape. */
  lemma DestinationFits(frameWidth: u32, frameHeight: u32, displayWidth: u32, displayHeight: u32)
    ensures var r := Destination(frameWidth, frameHeight, displayWidth, displayHeight);
      && r.x + r.width <= displayWidth && r.y + r.height <= displayHeight
      && (r.width == displayWidth || r.height == displayHeight)
      && (frameWidth > 0 && frameHeight > 0 && displayWidth > 0 && displayHeight > 0 ==>
            && Fills(r.width, r.height, frameWidth, frameHeight, displayWidth, displayHeight)
            && Centred(r.x, r.width, displayWidth) && Centred(r.y, r.height, displayHeight))
  {
    if frameWidth > 0 && frameHeight > 0 && displayWidth > 0 && displayHeight > 0 {
      var n, m := displayHeight * frameWidth, displayWidth * frameHeight;
      ProductFits(displayHeight, frameWidth);
      ProductFits(displayWidth, frameHeight);
      assert (displayWidth + 1) * frameHeight == m + frameHeight;
      assert (displayHeight + 1) * frameWidth == n + frameWidth;
      Fit(n, m, frameWidth, frameHeight, displayWidth, displayHeight);
    }
  }

  lemma Fit(n: nat, m: nat, frameWidth: u32, frameHeight: u32, displayWidth: u32, displayHeight: u32)
    requires frameWidth > 0 && frameHeight > 0 && displayWidth > 0 && displayHeight > 0
    requires n == displayHeight * frameWidth < U64_SIZE && m == displayWidth * frameHeight < U64_SIZE
    requires (displayWidth + 1) * frameHeight == m + frameHeight && (displayHeight + 1) * frameWidth == n + frameWidth
    ensures var r := Destination(frameWidth, frameHeight, displayWidth, displayHeight);
      && r.x + r.width <= displayWidth && r.y + r.height <= displayHeight
      && (if n < m + frameHeight then r.height == displayHeight && RoundedDown(r.width, n, frameHeight)
          else r.width == displayWidth && RoundedDown(r.height, m, frameWidth))
      && Centred(r.x, r.width, displayWidth) && Centred(r.y, r.height, displayHeight)
  {
    hide RoundedDown;
    QuotientRounds(n, frameHeight);
    QuotientRounds(m, frameWidth);
    QuotientAtMost(n, frameHeight, displayWidth);
    QuotientAtMost(m, frameWidth, displayHeight);
    var q := n / frameHeight;
    // Too wide: then m < n, and the height, scaled from the width, is not too high.
    assert q > displayWidth ==> m / frameWidth <= displayHeight;
    InCentre(displayWidth, Max(1, q));
    InCentre(displayHeight, Max(1, m / frameWidth));
    Unwrapped(n, m, frameWidth, frameHeight, displayWidth, displayHeight);
  }

  lemma InCentre(display: u32, size: int)
    requires size >= 1
    ensures size <= display ==> Wrap32(size) == size && Wrap32(display - size) == display - size
    ensures size <= display ==> Centred((display - size) / 2, size, display)
    ensures Centred(0, display, display)
  {
  }

  lemma Unwrapped(n: nat, m: nat, frameWidth: u32, frameHeight: u32, displayWidth: u32, displayHeight: u32)
    requires frameWidth > 0 && frameHeight > 0 && displayWidth > 0 && displayHeight > 0
    requires n == displayHeight * frameWidth < U64_SIZE && m == displayWidth * frameHeight < U64_SIZE
    ensures Destination(frameWidth, frameHeight, displayWidth, displayHeight)
         == if n / frameHeight <= displayWidth then
              Rect(Wrap32(displayWidth - Wrap32(Max(1, n / frameHeight))) / 2, 0, Wrap32(Max(1, n / frameHeight)),
                   displayHeight)
            else
              Rect(0, Wrap32(displayHeight - Wrap32(Max(1, m / frameWidth))) / 2, displayWidth,
                   Wrap32(Max(1, m / frameWidth)))
  {
    hide Wrap32, Scaled;
    NoWrap(displayHeight, frameWidth, frameHeight);
    NoWrap(displayWidth, frameHeight, frameWidth);
  }

  lemma NoWrap(side: u32, times: u32, per: u32)
    requires per > 0 && 0 <= side * times < U64_SIZE
    ensures Scaled(side, times, per) == side * times / per
  {
  }

  lemma ProductFits(a: u32, b: u32)
    ensures 0 <= a * b < U64_SIZE
  {
    ProductGrows(a, b, U32_SIZE - 1);
    ProductGrows(U32_SIZE - 1, a, U32_SIZE - 1);
  }

  lemma QuotientRounds(n: nat, d: nat)
    requires d > 0
    ensures RoundedDown(Max(1, n / d), n, d) && n / d >= 0
  {
    assert n == d * (n / d) + n % d;
    if n / d >= 1 {
      assert (n / d + 1) * d == d * (n / d) + d;
    }
  }

  lemma QuotientAtMost(n: nat, d: nat, k: nat)
    requires d > 0
    ensures n / d <= k <==> n < (k + 1) * d
  {
    assert n == d * (n / d) + n % d;
    if n / d <= k {
      ProductGrows(d, n / d + 1, k + 1);
    } else {
      ProductGrows(d, k + 1, n / d);
    }
  }

  /** Only one rectangle is a letterbox. */
  lemma LetterboxIsUnique(r: Rect, frameWidth: u32, frameHeight: u32, displayWidth: u32, displayHeight: u32)
    requires frameWidth > 0 && frameHeight > 0 && displayWidth > 0 && displayHeight > 0
    requires Fills(r.width, r.height, frameWidth, frameHeight, displayWidth, displayHeight)
    requires Centred(r.x, r.width, displayWidth) && Centred(r.y, r.height, displayHeight)
    ensures r == Destination(frameWidth, frameHeight, displayWidth, displayHeight)
  {
    DestinationFits(frameWidth, frameHeight, displayWidth, displayHeight);
    var s := Destination(frameWidth, frameHeight, displayWidth, displayHeight);
    if displayHeight * frameWidth < (displayWidth + 1) * frameHeight {
      RoundingIsUnique(r.width, s.width, displayHeight * frameWidth, frameHeight);
    } else {
      RoundingIsUnique(r.height, s.height, displayWidth * frameHeight, frameWidth);
    }
  }

  lemma RoundingIsUnique(a: int, b: int, n: int, d: int)
    requires d > 0 && RoundedDown(a, n, d) && RoundedDown(b, n, d)
    ensures a == b
  {
    if a < b {
      ProductGrows(d, a + 1, b);
    } else if b < a {
      ProductGrows(d, b + 1, a);
    }
  }

  /** Only the shape of a frame matters, not its resolution. */
  lemma OnlyShapeMatters(frameWidth: u32, frameHeight: u32, k: nat, displayWidth: u32, displayHeight: u32)
    requires k > 0 && k * frameWidth < U32_SIZE && k * frameHeight < U32_SIZE
    ensures Destination(k * frameWidth, k * frameHeight, displayWidth, displayHeight)
         == Destination(frameWidth, frameHeight, displayWidth, displayHeight)
  {
    if frameWidth > 0 && frameHeight > 0 && displayWidth > 0 && displayHeight > 0 {
      hide Destination, Fills, Centred;
      ProductGrows(k, 1, frameWidth);
      ProductGrows(k, 1, frameHeight);
      DestinationFits(k * frameWidth, k * frameHeight, displayWidth, displayHeight);
      var s := Destination(k * frameWidth, k * frameHeight, displayWidth, displayHeight);
      SmallerFills(s.width, s.height, frameWidth, frameHeight, k, displayWidth, displayHeight);
      LetterboxIsUnique(s, frameWidth, frameHeight, displayWidth, displayHeight);
    }
  }

  lemma SmallerFills(width: int, height: int, frameWidth: nat, frameHeight: nat, k: nat, displayWidth: nat,
                     displayHeight: nat)
    requires k > 0 && Fills(width, height, k * frameWidth, k * frameHeight, displayWidth, displayHeight)
    ensures Fills(width, height, frameWidth, frameHeight, displayWidth, displayHeight)
  {
    hide RoundedDown;
    var n, m, limit := displayHeight * frameWidth, displayWidth * frameHeight, (displayWidth + 1) * frameHeight;
    FactorOut(displayHeight, frameWidth, k);
    FactorOut(displayWidth, frameHeight, k);
    FactorOut(displayWidth + 1, frameHeight, k);
    Cancels(n, limit, k);
    if n < limit {
      SmallerRounding(width, n, frameHeight, k);
    } else {
      SmallerRounding(height, m, frameWidth, k);
    }
  }

  lemma FactorOut(a: nat, b: nat, k: nat)
    ensures a * (k * b) == k * (a * b)
  {
  }

  lemma Cancels(a: int, b: int, k: nat)
    requires k > 0
    ensures k * a < k * b <==> a < b
    ensures k * a <= k * b <==> a <= b
  {
    if a < b {
      ProductGrows(k, a + 1, b);
      assert k * (a + 1) == k * a + k;
    } else {
      ProductGrows(k, b, a);
    }
    if b < a {
      ProductGrows(k, b + 1, a);
      assert k * (b + 1) == k * b + k;
    }
  }

  lemma SmallerRounding(q: int, n: int, d: int, k: nat)
    requires k > 0 && RoundedDown(q, k * n, k * d)
    ensures RoundedDown(q, n, d)
  {
    assert (q + 1) * (k * d) == k * ((q + 1) * d);
    assert q * (k * d) == k * (q * d);
    Cancels(n, (q + 1) * d, k);
    Cancels(q * d, n, k);
  }
}
