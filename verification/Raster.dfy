// Drawing roads into the map mosaic: the stroke line of the tile generator, its
// discs, and the pixels they change.
module Raster {
  import opened Arithmetic
  import opened Bytes

  // ----- The ideal line ------------------------------------------------------------

  /** num / den rounded to the nearest integer, halves up. */
  function Round(num: nat, den: nat): (r: nat)
    requires den > 0
  {
    (2 * num + den) / (2 * den)
  }

  /** Steps taken along x and y after k steps along the longer axis: the shorter
      axis follows the exact line, rounded. */
  function Steps(a: nat, b: nat, k: nat): (nat, nat) {
    if a >= b then (k, if a == 0 then 0 else Round(b * k, a)) else (Round(a * k, b), k)
  }

  /** The coordinate after p steps towards the other end. */
  function Along(start: int, end: int, p: int): int { if start < end then start + p else start - p }

  /** The k-th point of the line from (x0, y0) to (x1, y1). */
  function PointAt(x0: int, y0: int, x1: int, y1: int, k: nat): (int, int) {
    var (px, py) := Steps(Abs(x1 - x0), Abs(y1 - y0), k);
    (Along(x0, x1, px), Along(y0, y1, py))
  }

  function Length(x0: int, y0: int, x1: int, y1: int): nat {
    if Abs(x1 - x0) < Abs(y1 - y0) then Abs(y1 - y0) else Abs(x1 - x0)
  }

  lemma RoundIs(num: nat, den: nat, r: nat)
    requires den > 0
    ensures r == Round(num, den) <==> 2 * (den * r) <= 2 * num + den < 2 * (den * r) + 2 * den
  {
    var n, d := 2 * num + den, 2 * den;
    assert n == d * (n / d) + n % d;
    assert d * r == 2 * (den * r);
    if d * r <= n < d * r + d {
      DivIsUnique(n, d, r);
    }
  }

  /** How far a point is off the exact line, in units of 1 / max(a, b) pixel:
      the cross product the algorithm keeps in its error term. */
  function Cross(a: nat, b: nat, px: int, py: int): int { a * py - b * px }

  /** Half a pixel at most; a tie is kept on one fixed side. */
  ghost predicate Near(a: nat, b: nat, px: int, py: int) {
    if a >= b then 2 * Cross(a, b, px, py) <= a && (-(a as int) < 2 * Cross(a, b, px, py) || (a == 0 && px == py == 0))
    else -(b as int) <= 2 * Cross(a, b, px, py) < b
  }

  lemma NearIsRounded(a: nat, b: nat, px: nat, py: nat)
    requires a > 0 || b > 0
    ensures a >= b ==> (Near(a, b, px, py) <==> py == Round(b * px, a))
    ensures a < b ==> (Near(a, b, px, py) <==> px == Round(a * py, b))
  {
    if a >= b {
      RoundIs(b * px, a, py);
    } else {
      RoundIs(a * py, b, px);
    }
  }

  lemma CrossSteps(a: nat, b: nat, px: int, py: int)
    ensures Cross(a, b, px + 1, py) == Cross(a, b, px, py) - b
    ensures Cross(a, b, px, py + 1) == Cross(a, b, px, py) + a
    ensures Cross(a, b, px + 1, py + 1) == Cross(a, b, px, py) + a - b
  {
  }

  /** One turn of the loop, on the number of steps taken along each axis. */
  function Turn(a: nat, b: nat, px: nat, py: nat): (nat, nat) {
    var error := Cross(a, b, px, py) + a - b;
    (if 2 * error >= -(b as int) then px + 1 else px, if 2 * error <= a then py + 1 else py)
  }

  /** Every turn before the end takes exactly one step along the longer axis and
      stays within half a pixel. */
  lemma TurnStaysNear(a: nat, b: nat, px: nat, py: nat)
    requires Near(a, b, px, py) && (a > 0 || b > 0)
    ensures var (qx, qy) := Turn(a, b, px, py);
            && Near(a, b, qx, qy)
            && (if a >= b then qx == px + 1 && py <= qy <= py + 1 else qy == py + 1 && px <= qx <= px + 1)
  {
    CrossSteps(a, b, px, py);
  }

  /** At the end of the longer axis the shorter one has arrived too. */
  lemma NearEndIsEnd(a: nat, b: nat, px: nat, py: nat)
    requires Near(a, b, px, py) && (a > 0 || b > 0)
    ensures a >= b && px == a ==> py == b
    ensures a < b && py == b ==> px == a
  {
    if a >= b && px == a {
      assert Cross(a, b, px, py) == a * (py - b);
      ProductGrows(a, py - b, -1);
      ProductGrows(a, 1, py - b);
    } else if a < b && py == b {
      assert Cross(a, b, px, py) == b * (a - px);
      ProductGrows(b, a - px, -1);
      ProductGrows(b, 1, a - px);
    }
  }

  /** Before the end the point is strictly inside. */
  lemma NearStaysInside(a: nat, b: nat, px: nat, py: nat)
    requires Near(a, b, px, py) && (a > 0 || b > 0)
    requires if a >= b then px <= a else py <= b
    ensures px <= a && py <= b
  {
    if a >= b {
      ProductGrows(b, px, a);
      assert b * a == a * b;
      ProductGrows(a, b + 1, py);
      assert a * (b + 1) == a * b + a;
    } else {
      ProductGrows(a, py, b);
      assert a * b == b * a;
      ProductGrows(b, a + 1, px);
      assert b * (a + 1) == b * a + b;
    }
  }

  lemma StepsAreNear(a: nat, b: nat, k: nat)
    requires a > 0 || b > 0
    ensures var (px, py) := Steps(a, b, k); Near(a, b, px, py)
  {
    var (px, py) := Steps(a, b, k);
    NearIsRounded(a, b, px, py);
  }

  lemma NearIsSteps(a: nat, b: nat, px: nat, py: nat)
    requires Near(a, b, px, py) && (a > 0 || b > 0)
    ensures Steps(a, b, if a >= b then px else py) == (px, py)
  {
    NearIsRounded(a, b, px, py);
  }

  /** The line runs from one end to the other. */
  lemma LineReachesBothEnds(x0: int, y0: int, x1: int, y1: int)
    ensures PointAt(x0, y0, x1, y1, 0) == (x0, y0)
    ensures PointAt(x0, y0, x1, y1, Length(x0, y0, x1, y1)) == (x1, y1)
  {
    hide Round, Near;
    var a, b, n := Abs(x1 - x0), Abs(y1 - y0), Length(x0, y0, x1, y1);
    if a > 0 || b > 0 {
      StartIsNear(a, b);
      NearIsSteps(a, b, 0, 0);
      StepsAreNear(a, b, n);
      var (px, py) := Steps(a, b, n);
      NearEndIsEnd(a, b, px, py);
    }
  }

  lemma StartIsNear(a: nat, b: nat)
    ensures Near(a, b, 0, 0) && Cross(a, b, 0, 0) == 0
  {
  }

  /** No visited point leaves the bounding box of the ends. */
  lemma LineStaysInBox(x0: int, y0: int, x1: int, y1: int, k: nat)
    requires k <= Length(x0, y0, x1, y1)
    ensures var (x, y) := PointAt(x0, y0, x1, y1, k);
            Min(x0, x1) <= x <= Max(x0, x1) && Min(y0, y1) <= y <= Max(y0, y1)
  {
    hide Round, Near;
    var a, b := Abs(x1 - x0), Abs(y1 - y0);
    if a > 0 || b > 0 {
      StepsAreNear(a, b, k);
      var (px, py) := Steps(a, b, k);
      NearStaysInside(a, b, px, py);
    }
  }

  /** Each visited point is a different one of the eight neighbours of the last. */
  lemma LineIsConnected(x0: int, y0: int, x1: int, y1: int, k: nat)
    requires 0 < k <= Length(x0, y0, x1, y1)
    ensures var (x, y) := PointAt(x0, y0, x1, y1, k);
            var (u, v) := PointAt(x0, y0, x1, y1, k - 1);
            Abs(x - u) <= 1 && Abs(y - v) <= 1 && (x, y) != (u, v)
  {
    hide Round, Near, Turn, Cross;
    var a, b := Abs(x1 - x0), Abs(y1 - y0);
    StepsAreNear(a, b, k - 1);
    var (qx, qy) := Steps(a, b, k - 1);
    TurnStaysNear(a, b, qx, qy);
    var (rx, ry) := Turn(a, b, qx, qy);
    NearIsSteps(a, b, rx, ry);
    assert Steps(a, b, k) == (rx, ry);
  }

  /** A visited point is at most half a pixel off the exact line. */
  lemma LineIsClose(x0: int, y0: int, x1: int, y1: int, k: nat)
    requires k <= Length(x0, y0, x1, y1)
    ensures var (x, y) := PointAt(x0, y0, x1, y1, k);
            2 * Abs((x1 - x0) * (y - y0) - (y1 - y0) * (x - x0)) <= Length(x0, y0, x1, y1)
  {
    hide Round;
    var a, b := Abs(x1 - x0), Abs(y1 - y0);
    var (px, py) := Steps(a, b, k);
    var (x, y) := PointAt(x0, y0, x1, y1, k);
    SignedCross(x1 - x0, y1 - y0, px, py);
    if a > 0 || b > 0 {
      StepsAreNear(a, b, k);
    }
    assert x - x0 == Signed(x1 - x0, px) && y - y0 == Signed(y1 - y0, py);
  }

  function Signed(d: int, p: nat): int { if d > 0 then p else 0 - p }

  lemma SignedCross(dx: int, dy: int, px: nat, py: nat)
    ensures Abs(dx * Signed(dy, py) - dy * Signed(dx, px)) == Abs(Cross(Abs(dx), Abs(dy), px, py))
  {
    var sx, sy := Signed(dx, px), Signed(dy, py);
    if dx > 0 {
      if dy > 0 {
      } else {
        assert dx * sy == -(dx * py) && (-dy) * px == -(dy * sx);
      }
    } else if dy > 0 {
      assert dx * sy == -((-dx) * py) && dy * sx == -(dy * px);
    } else {
      assert dx * sy == (-dx) * py && dy * sx == (-dy) * px;
    }
  }

  // ----- Pixels ------------------------------------------------------------------------

  /** Index of the first byte of a pixel. */
  function Offset(width: nat, x: nat, y: nat): nat { (y * width + x) * 3 }

  lemma OffsetInside(width: nat, height: nat, x: nat, y: nat)
    requires x < width && y < height
    ensures Offset(width, x, y) + 3 <= width * height * 3
  {
    ProductGrows(width, y + 1, height);
    assert width * (y + 1) == y * width + width;
  }

  /** Different pixels do not overlap. */
  lemma OffsetsApart(width: nat, x: nat, y: nat, u: nat, v: nat)
    requires x < width && u < width && (x, y) != (u, v)
    ensures Offset(width, x, y) + 3 <= Offset(width, u, v) || Offset(width, u, v) + 3 <= Offset(width, x, y)
  {
    assert width * (y + 1) == y * width + width && width * (v + 1) == v * width + width;
    ProductGrows(width, y + 1, v);
    ProductGrows(width, v + 1, y);
  }

  type Color = c: seq<byte> | |c| == 3 witness [0, 0, 0]

  /** The pixel of a picture stored row by row, three bytes each. */
  ghost function Pixel(image: seq<byte>, width: nat, height: nat, x: nat, y: nat): Color
    requires |image| == width * height * 3 && x < width && y < height
  {
    OffsetInside(width, height, x, y);
    image[Offset(width, x, y)..Offset(width, x, y) + 3]
  }

  method PutPixel(image: array<byte>, width: nat, height: nat, x: nat, y: nat, color: Color)
    requires image.Length == width * height * 3 && x < width && y < height
    modifies image
    ensures Pixel(image[..], width, height, x, y) == color
    ensures forall u, v | 0 <= u < width && 0 <= v < height && (u, v) != (x, y) ::
      Pixel(image[..], width, height, u, v) == Pixel(old(image[..]), width, height, u, v)
  {
    OffsetInside(width, height, x, y);
    var offset := Offset(width, x, y);
    image[offset], image[offset + 1], image[offset + 2] := color[0], color[1], color[2];
    assert image[..][offset..offset + 3] == color;
    forall u, v | 0 <= u < width && 0 <= v < height && (u, v) != (x, y)
      ensures Pixel(image[..], width, height, u, v) == Pixel(old(image[..]), width, height, u, v)
    {
      OffsetInside(width, height, u, v);
      OffsetsApart(width, u, v, x, y);
    }
  }

  /** Is the pixel within the radius of the point? */
  predicate InDisc(x: int, y: int, radius: int, px: int, py: int) {
    radius >= 0 && (px - x) * (px - x) + (py - y) * (py - y) <= radius * radius
  }

  lemma InDiscIsNear(x: int, y: int, radius: int, px: int, py: int)
    requires InDisc(x, y, radius, px, py)
    ensures x - radius <= px <= x + radius && y - radius <= py <= y + radius
  {
    SquareBound(px - x, radius);
    SquareBound(py - y, radius);
  }

  lemma SquareBound(d: int, r: int)
    requires r >= 0
    ensures d * d <= r * r ==> -r <= d <= r
    ensures 0 <= d * d
  {
    var m := Abs(d);
    assert m * m == d * d;
    if m > r {
      assert m * m >= m * (r + 1) >= (r + 1) * (r + 1) == r * r + 2 * r + 1;
    }
  }

  /** Exactly the pixels of a region took the colour. */
  ghost predicate Painted(before: seq<byte>, after: seq<byte>, width: nat, height: nat, region: (int, int) -> bool,
                          color: Color) {
    && |before| == |after| == width * height * 3
    && forall u: nat, v: nat | u < width && v < height ::
         Pixel(after, width, height, u, v) == if region(u, v) then color else Pixel(before, width, height, u, v)
  }

  lemma PaintedTwice(before: seq<byte>, between: seq<byte>, after: seq<byte>, width: nat, height: nat,
                     first: (int, int) -> bool, second: (int, int) -> bool, both: (int, int) -> bool, color: Color)
    requires Painted(before, between, width, height, first, color)
      && Painted(between, after, width, height, second, color)
    requires forall u, v :: both(u, v) <==> first(u, v) || second(u, v)
    ensures Painted(before, after, width, height, both, color)
  {
  }

  ghost function Disc(x: int, y: int, radius: int): (int, int) -> bool {
    (u, v) => InDisc(x, y, radius, u, v)
  }

  /** put_disc: the pixels of the image within the radius, and no others. */
  method PutDisc(image: array<byte>, width: nat, height: nat, x: int, y: int, radius: int, color: Color)
    requires image.Length == width * height * 3
    modifies image
    ensures Painted(old(image[..]), image[..], width, height, Disc(x, y, radius), color)
    // On the bytes: pixel i, at column i % width of row i / width, is three bytes from 3 * i on.
    ensures forall i: nat | i < width * height ::
      var dx, dy := i % width - x, i / width - y;
      image[..][3 * i..3 * i + 3]
        == if radius >= 0 && dx * dx + dy * dy <= radius * radius then color else old(image[..])[3 * i..3 * i + 3]
  {
    DrawDisc(image, width, height, x, y, radius, color);
    PaintedDiscBytes(old(image[..]), image[..], width, height, x, y, radius, color);
  }

  lemma PaintedDiscBytes(before: seq<byte>, after: seq<byte>, width: nat, height: nat, x: int, y: int, radius: int,
                         color: Color)
    requires Painted(before, after, width, height, Disc(x, y, radius), color)
    ensures forall i: nat | i < width * height ::
      var dx, dy := i % width - x, i / width - y;
      after[3 * i..3 * i + 3]
        == if radius >= 0 && dx * dx + dy * dy <= radius * radius then color else before[3 * i..3 * i + 3]
  {
    hide Pixel;
    forall i: nat | i < width * height
      ensures var dx, dy := i % width - x, i / width - y;
        after[3 * i..3 * i + 3]
          == if radius >= 0 && dx * dx + dy * dy <= radius * radius then color else before[3 * i..3 * i + 3]
    {
      PixelBytes(after, width, height, i);
      PixelBytes(before, width, height, i);
      assert Disc(x, y, radius)(i % width, i / width) == InDisc(x, y, radius, i % width, i / width);
    }
  }

  /** The pixels in the order of their bytes. */
  lemma PixelBytes(image: seq<byte>, width: nat, height: nat, i: nat)
    requires |image| == width * height * 3 && i < width * height
    ensures width > 0 && i % width < width && i / width < height
    ensures Pixel(image, width, height, i % width, i / width) == image[3 * i..3 * i + 3]
  {
    assert width > 0;
    assert i == width * (i / width) + i % width;
    ProductGrows(width, height, i / width);
    assert i / width * width + i % width == i;
  }

  /** The loops of put_disc. */
  method DrawDisc(image: array<byte>, width: nat, height: nat, x: int, y: int, radius: int, color: Color)
    requires image.Length == width * height * 3
    modifies image
    ensures Painted(old(image[..]), image[..], width, height, Disc(x, y, radius), color)
  {
    hide Pixel, InDisc;
    var left, right := Max(0, x - radius), Min(width - 1, x + radius);
    var top, bottom := Max(0, y - radius), Min(height - 1, y + radius);
    var radiusSquared := radius * radius;
    ghost var before := image[..];
    forall u, v | InDisc(x, y, radius, u, v) ensures x - radius <= u <= x + radius && y - radius <= v <= y + radius {
      InDiscIsNear(x, y, radius, u, v);
    }
    var py := top;
    while py < bottom + 1
      invariant top <= py <= Max(top, bottom + 1)
      invariant Painted(before, image[..], width, height, (u, v) => InDisc(x, y, radius, u, v) && v < py, color)
      decreases bottom + 1 - py
    {
      var px := left;
      while px < right + 1
        invariant left <= px <= Max(left, right + 1)
        invariant Painted(before, image[..], width, height,
                          (u, v) => InDisc(x, y, radius, u, v) && (v < py || (v == py && u < px)), color)
        decreases right + 1 - px
      {
        DiscTest(x, y, radius, px, py);
        if (px - x) * (px - x) + (py - y) * (py - y) <= radiusSquared {
          PutPixel(image, width, height, px, py, color);
        }
        px := px + 1;
      }
      py := py + 1;
    }
  }

  /** With a non-empty box the radius is not negative. */
  lemma DiscTest(x: int, y: int, radius: int, px: int, py: int)
    requires x - radius <= px <= x + radius
    ensures InDisc(x, y, radius, px, py) <==> (px - x) * (px - x) + (py - y) * (py - y) <= radius * radius
  {
  }

  /** Is the pixel within the radius of one of the first count points of the line? */
  ghost predicate Stroked(x0: int, y0: int, x1: int, y1: int, radius: int, count: nat, u: int, v: int) {
    exists k: nat :: k < count && InDisc(PointAt(x0, y0, x1, y1, k).0, PointAt(x0, y0, x1, y1, k).1, radius, u, v)
  }

  ghost function StrokeRegion(x0: int, y0: int, x1: int, y1: int, radius: int, count: nat): (int, int) -> bool {
    (u, v) => Stroked(x0, y0, x1, y1, radius, count, u, v)
  }

  lemma StrokedNext(x0: int, y0: int, x1: int, y1: int, radius: int, count: nat, u: int, v: int)
    ensures Stroked(x0, y0, x1, y1, radius, count + 1, u, v) <==>
            Stroked(x0, y0, x1, y1, radius, count, u, v)
            || InDisc(PointAt(x0, y0, x1, y1, count).0, PointAt(x0, y0, x1, y1, count).1, radius, u, v)
  {
  }

  function StrokeRadius(stroke: int): (radius: int)
    ensures radius >= 1 && stroke < 2 * radius + 2 && (radius == 1 || 2 * radius <= stroke)
  {
    Max(1, stroke / 2)
  }

  /** line: the loop ends after exactly one point per step of the longer axis, each
      where the exact line rounds to; a pixel changes if and only if it is within
      the stroke of one of them. */
  method Line(image: array<byte>, width: nat, height: nat, x0: int, y0: int, x1: int, y1: int, stroke: int,
              color: Color)
    returns (ghost visited: seq<(int, int)>)
    requires image.Length == width * height * 3
    modifies image
    ensures |visited| == Length(x0, y0, x1, y1) + 1
    ensures forall k | 0 <= k < |visited| :: visited[k] == PointAt(x0, y0, x1, y1, k)
    ensures Painted(old(image[..]), image[..], width, height,
                    StrokeRegion(x0, y0, x1, y1, StrokeRadius(stroke), |visited|), color)
  {
    hide Painted, InDisc, Disc, StrokeRegion, Round, Near, Cross, Stroked, PointAt, Steps;
    var x, y := x0, y0;
    var dx, sx := Abs(x1 - x0), if x0 < x1 then 1 else -1;
    var dy: int, sy := 0 - Abs(y1 - y0), if y0 < y1 then 1 else -1;
    var error := dx + dy;
    var radius := Max(1, stroke / 2);
    ghost var a: nat, b: nat := dx, 0 - dy;
    ghost var px: nat, py: nat := 0, 0;
    StartIsNear(a, b);
    NothingStroked(image[..], width, height, x0, y0, x1, y1, radius, color);
    visited := [];
    while true
      invariant error == Cross(a, b, px, py) + a - b
      invariant x == Along(x0, x1, px) && y == Along(y0, y1, py)
      invariant px <= a && py <= b && Near(a, b, px, py)
      invariant |visited| == if a >= b then px else py
      invariant forall k | 0 <= k < |visited| :: visited[k] == PointAt(x0, y0, x1, y1, k)
      invariant Painted(old(image[..]), image[..], width, height,
                        StrokeRegion(x0, y0, x1, y1, radius, |visited|), color)
      decreases a + b - px - py
    {
      ghost var between := image[..];
      PutDisc(image, width, height, x, y, radius, color);
      CountedPoint(x0, y0, x1, y1, px, py, x, y);
      StrokeGrows(old(image[..]), between, image[..], width, height, x0, y0, x1, y1, radius, |visited|, x, y, color);
      visited := visited + [(x, y)];
      if x == x1 && y == y1 {
        assert px == a && py == b;
        return;
      }
      assert a > 0 || b > 0;
      NearEndIsEnd(a, b, px, py);
      TurnStaysNear(a, b, px, py);
      CrossSteps(a, b, px, py);
      var twice := error * 2;
      ghost var next := Turn(a, b, px, py);
      if twice >= dy {
        error := error + dy;
        x := x + sx;
      }
      if twice <= dx {
        error := error + dx;
        y := y + sy;
      }
      px, py := next.0, next.1;
      NearStaysInside(a, b, px, py);
    }
  }

  /** The loop's position is the point of the line with that number. */
  /** A stroke on the bytes: a pixel has the color exactly if one of the points lies within
      the radius, and is as before otherwise. */
  lemma StrokedBytes(before: seq<byte>, after: seq<byte>, width: nat, height: nat, x0: int, y0: int, x1: int, y1: int,
                     radius: int, visited: seq<(int, int)>, color: Color, i: nat)
    requires forall k | 0 <= k < |visited| :: visited[k] == PointAt(x0, y0, x1, y1, k)
    requires Painted(before, after, width, height, StrokeRegion(x0, y0, x1, y1, radius, |visited|), color)
    requires i < width * height
    ensures width > 0 && |before| == |after| == width * height * 3
    ensures (exists k :: 0 <= k < |visited| && InDisc(visited[k].0, visited[k].1, radius, i % width, i / width)) ==>
      after[3 * i..3 * i + 3] == color
    ensures !(exists k :: 0 <= k < |visited| && InDisc(visited[k].0, visited[k].1, radius, i % width, i / width)) ==>
      after[3 * i..3 * i + 3] == before[3 * i..3 * i + 3]
  {
    hide Pixel, InDisc, PointAt;
    PixelBytes(after, width, height, i);
    PixelBytes(before, width, height, i);
    var u, v := i % width, i / width;
    assert StrokeRegion(x0, y0, x1, y1, radius, |visited|)(u, v) == Stroked(x0, y0, x1, y1, radius, |visited|, u, v);
    if Stroked(x0, y0, x1, y1, radius, |visited|, u, v) {
      var k: nat :| k < |visited|
        && InDisc(PointAt(x0, y0, x1, y1, k).0, PointAt(x0, y0, x1, y1, k).1, radius, u, v);
      assert visited[k] == PointAt(x0, y0, x1, y1, k);
    }
  }

  lemma CountedPoint(x0: int, y0: int, x1: int, y1: int, px: nat, py: nat, x: int, y: int)
    requires var a, b := Abs(x1 - x0), Abs(y1 - y0); px <= a && py <= b && Near(a, b, px, py)
    requires x == Along(x0, x1, px) && y == Along(y0, y1, py)
    ensures PointAt(x0, y0, x1, y1, if Abs(x1 - x0) >= Abs(y1 - y0) then px else py) == (x, y)
  {
    hide Round, Near;
    var a, b := Abs(x1 - x0), Abs(y1 - y0);
    if a > 0 || b > 0 {
      NearIsSteps(a, b, px, py);
    }
  }

  lemma NothingStroked(image: seq<byte>, width: nat, height: nat, x0: int, y0: int, x1: int, y1: int, radius: int,
                       color: Color)
    requires |image| == width * height * 3
    ensures Painted(image, image, width, height, StrokeRegion(x0, y0, x1, y1, radius, 0), color)
  {
  }

  lemma StrokeGrows(before: seq<byte>, between: seq<byte>, after: seq<byte>, width: nat, height: nat,
                    x0: int, y0: int, x1: int, y1: int, radius: int, count: nat, x: int, y: int, color: Color)
    requires PointAt(x0, y0, x1, y1, count) == (x, y)
    requires Painted(before, between, width, height, StrokeRegion(x0, y0, x1, y1, radius, count), color)
    requires Painted(between, after, width, height, Disc(x, y, radius), color)
    ensures Painted(before, after, width, height, StrokeRegion(x0, y0, x1, y1, radius, count + 1), color)
  {
    hide Painted, InDisc, PointAt, Stroked;
    var first := StrokeRegion(x0, y0, x1, y1, radius, count);
    var second := Disc(x, y, radius);
    var both := StrokeRegion(x0, y0, x1, y1, radius, count + 1);
    forall u, v ensures both(u, v) <==> first(u, v) || second(u, v) {
      StrokedNext(x0, y0, x1, y1, radius, count, u, v);
    }
    PaintedTwice(before, between, after, width, height, first, second, both, color);
  }
}
