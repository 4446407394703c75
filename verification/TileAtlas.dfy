// From the drawn mosaic to the map on screen: cutting tiles, assembling them into
// an atlas, and keeping the atlas between frames.
module TileAtlas {
  import opened Arithmetic
  import opened Bytes
  import opened Png

  const BACKGROUND: nat := 0xff090e0f

  type Tile = t: seq<nat> | |t| == TILE * TILE witness seq(TILE * TILE, i => 0)

  // ----- Cutting -----------------------------------------------------------------------

  /** Byte k of a pixel of a picture stored row by row. */
  function Channel(image: seq<byte>, width: nat, x: nat, y: nat, k: nat): byte {
    Get(image, (y * width + x) * 3 + k)
  }

  /** The tile at (tileX, tileY) of a mosaic countX tiles wide. */
  method CutTile(image: seq<byte>, countX: nat, countY: nat, tileX: nat, tileY: nat) returns (tile: seq<byte>)
    requires |image| == (countX * TILE) * (countY * TILE) * 3 && tileX < countX && tileY < countY
    ensures |tile| == TILE * 3 * TILE
    ensures forall x: nat, y: nat, k: nat | x < TILE && y < TILE && k < 3 ::
      Channel(tile, TILE, x, y, k) == Channel(image, countX * TILE, tileX * TILE + x, tileY * TILE + y, k)
    // Byte i % 768 of row i / 768 is that many bytes into the tile's stretch of the mosaic's row.
    ensures forall i: nat | i < |tile| ::
      tile[i] == Get(image, ((tileY * 256 + i / 768) * (countX * 256) + tileX * 256) * 3 + i % 768)
  {
    var rowBytes, tileBytes := countX * TILE * 3, TILE * 3;
    tile := [];
    for py := 0 to TILE
      invariant |tile| == py * tileBytes
      invariant forall x: nat, y: nat, k: nat | x < TILE && y < py && k < 3 ::
        Channel(tile, TILE, x, y, k) == Channel(image, countX * TILE, tileX * TILE + x, tileY * TILE + y, k)
    {
      var source := (tileY * TILE + py) * rowBytes + tileX * tileBytes;
      SourceInside(countX, countY, tileX, tileY, py);
      ghost var before := tile;
      tile := tile + image[source..source + tileBytes];
      forall x: nat, y: nat, k: nat | x < TILE && y < py + 1 && k < 3
        ensures Channel(tile, TILE, x, y, k) == Channel(image, countX * TILE, tileX * TILE + x, tileY * TILE + y, k)
      {
        if y < py {
          assert Channel(tile, TILE, x, y, k) == Channel(before, TILE, x, y, k);
        } else {
          SourceOffset(countX, tileX, tileY, py, x, k);
        }
      }
    }
    forall i: nat | i < |tile|
      ensures tile[i] == Get(image, ((tileY * 256 + i / 768) * (countX * 256) + tileX * 256) * 3 + i % 768)
    {
      ChannelOfByte(tile, image, countX, tileX, tileY, i);
    }
  }

  lemma ChannelOfByte(tile: seq<byte>, image: seq<byte>, countX: nat, tileX: nat, tileY: nat, i: nat)
    requires |tile| == TILE * 3 * TILE && i < |tile|
    requires forall x: nat, y: nat, k: nat | x < TILE && y < TILE && k < 3 ::
      Channel(tile, TILE, x, y, k) == Channel(image, countX * TILE, tileX * TILE + x, tileY * TILE + y, k)
    ensures tile[i] == Get(image, ((tileY * 256 + i / 768) * (countX * 256) + tileX * 256) * 3 + i % 768)
  {
    var y, x, k := i / 768, i % 768 / 3, i % 3;
    PlaceInTile(i);
    var row := (tileY * 256 + y) * (countX * 256);
    assert Channel(tile, TILE, x, y, k) == tile[i];
    ChannelAt(image, countX * TILE, tileX * TILE + x, tileY * TILE + y, k, row, row * 3 + tileX * 768 + 3 * x + k);
  }

  lemma PlaceInTile(i: nat)
    requires i < 768 * 256
    ensures var y, x, k := i / 768, i % 768 / 3, i % 3;
      y < 256 && x < 256 && k < 3 && i == 768 * y + 3 * x + k && i % 768 == 3 * x + k
  {
  }

  lemma ChannelAt(image: seq<byte>, width: nat, x: nat, y: nat, k: nat, row: nat, at: nat)
    requires row == y * width && at == (row + x) * 3 + k
    ensures Channel(image, width, x, y, k) == Get(image, at)
  {
  }

  lemma SourceInside(countX: nat, countY: nat, tileX: nat, tileY: nat, py: nat)
    requires tileX < countX && tileY < countY && py < TILE
    ensures (tileY * TILE + py) * (countX * TILE * 3) + tileX * (TILE * 3) + TILE * 3
      <= (countX * TILE) * (countY * TILE) * 3
  {
    RowsGrow(tileY * TILE + py, countY * TILE, countX * TILE);
    assert (tileY * TILE + py) * (countX * TILE * 3) == (tileY * TILE + py) * (countX * TILE) * 3;
  }

  lemma SourceOffset(countX: nat, tileX: nat, tileY: nat, py: nat, x: nat, k: nat)
    ensures ((tileY * TILE + py) * (countX * TILE) + tileX * TILE + x) * 3 + k
         == (tileY * TILE + py) * (countX * TILE * 3) + tileX * (TILE * 3) + x * 3 + k
  {
    assert (tileY * TILE + py) * (countX * TILE * 3) == (tileY * TILE + py) * (countX * TILE) * 3;
  }

  // ----- Assembling ----------------------------------------------------------------------

  /** The pixel the atlas shows at (x, y), given the tiles by column and row. */
  function Composite(load: (int, int) -> Option<Tile>, x: nat, y: nat): nat {
    match load(x / TILE, y / TILE)
    case None => BACKGROUND
    case Some(tile) => tile[y % TILE * TILE + x % TILE]
  }

  /** The whole atlas, row by row. */
  ghost function Assembled(load: (int, int) -> Option<Tile>, tilesX: nat, tilesY: nat): seq<nat> {
    seq((tilesX * TILE) * (tilesY * TILE), i requires 0 <= i < (tilesX * TILE) * (tilesY * TILE) =>
      Composite(load, i % (tilesX * TILE), i / (tilesX * TILE)))
  }

  lemma CellsApart(width: nat, x: nat, y: nat, u: nat, v: nat)
    requires x < width && u < width && y * width + x == v * width + u
    ensures x == u && y == v
  {
    RowAndColumn(width, y, x);
    RowAndColumn(width, v, u);
  }

  /** The element at column x of row y, 0 outside. */
  function Cell(s: seq<nat>, width: nat, x: nat, y: nat): nat {
    if y * width + x < |s| then s[y * width + x] else 0
  }

  /** One row of a tile, copied to its place. */
  method CopyRow(atlas: array<nat>, width: nat, height: nat, tile: Tile, tx: nat, ty: nat, row: nat)
    requires atlas.Length == width * height && tx * TILE + TILE <= width && ty * TILE + TILE <= height && row < TILE
    modifies atlas
    ensures forall x: nat, y: nat | x < width && y < height ::
      Cell(atlas[..], width, x, y) == if y == ty * TILE + row && x / TILE == tx then tile[row * TILE + x % TILE]
                                      else Cell(old(atlas[..]), width, x, y)
  {
    var base := (ty * TILE + row) * width + tx * TILE;
    RowsGrow(ty * TILE + row, height, width);
    ghost var before := atlas[..];
    forall c | 0 <= c < TILE {
      atlas[base + c] := tile[row * TILE + c];
    }
    forall i | 0 <= i < atlas.Length
      ensures atlas[i] == if base <= i < base + TILE then tile[row * TILE + (i - base)] else before[i]
    {
      if base <= i < base + TILE {
        assert atlas[base + (i - base)] == tile[row * TILE + (i - base)];
      }
    }
    forall x: nat, y: nat | x < width && y < height
      ensures Cell(atlas[..], width, x, y) == if y == ty * TILE + row && x / TILE == tx then tile[row * TILE + x % TILE]
                                              else Cell(before, width, x, y)
    {
      RowCopied(before, atlas[..], width, height, tile, tx, ty, row, base, x, y);
    }
  }

  lemma RowCopied(before: seq<nat>, after: seq<nat>, width: nat, height: nat, tile: Tile, tx: nat, ty: nat, row: nat,
                  base: nat, x: nat, y: nat)
    requires |before| == |after| == width * height && row < TILE
    requires tx * TILE + TILE <= width && base == (ty * TILE + row) * width + tx * TILE
    requires forall i | 0 <= i < |after| ::
      after[i] == if base <= i < base + TILE then tile[row * TILE + (i - base)] else before[i]
    requires x < width && y < height
    ensures Cell(after, width, x, y) == if y == ty * TILE + row && x / TILE == tx then tile[row * TILE + x % TILE]
                                        else Cell(before, width, x, y)
  {
    RowsGrow(y, height, width);
    RowHit(width, x, y, tx, ty * TILE + row);
  }

  /** Exactly the cells of one tile's row lie in its stretch of the buffer. */
  lemma RowHit(width: nat, x: nat, y: nat, tx: nat, line: nat)
    requires x < width && tx * TILE + TILE <= width
    ensures var base := line * width + tx * TILE;
            base <= y * width + x < base + TILE <==> y == line && x / TILE == tx
  {
    var base, i := line * width + tx * TILE, y * width + x;
    if base <= i < base + TILE {
      CellsApart(width, x, y, tx * TILE + (i - base), line);
    }
  }

  /** A whole tile, row after row. */
  method CopyTile(atlas: array<nat>, width: nat, height: nat, tile: Tile, tx: nat, ty: nat)
    requires atlas.Length == width * height && tx * TILE + TILE <= width && ty * TILE + TILE <= height
    modifies atlas
    ensures forall x: nat, y: nat | x < width && y < height ::
      Cell(atlas[..], width, x, y) == if x / TILE == tx && y / TILE == ty then tile[y % TILE * TILE + x % TILE]
                                      else Cell(old(atlas[..]), width, x, y)
  {
    hide Cell;
    ghost var before := atlas[..];
    for row := 0 to TILE
      invariant forall x: nat, y: nat | x < width && y < height ::
        Cell(atlas[..], width, x, y)
          == if x / TILE == tx && y / TILE == ty && y % TILE < row then tile[y % TILE * TILE + x % TILE]
             else Cell(before, width, x, y)
    {
      CopyRow(atlas, width, height, tile, tx, ty, row);
    }
  }

  /** Is the tile under the pixel drawn before tile (tx, ty)? */
  predicate Earlier(x: nat, y: nat, tx: nat, ty: nat) {
    y / TILE < ty || (y / TILE == ty && x / TILE < tx)
  }

  /** The rebuild of ensure_atlas: background, then every tile that loads. */
  method Assemble(load: (int, int) -> Option<Tile>, tilesX: nat, tilesY: nat) returns (result: seq<nat>)
    ensures result == Assembled(load, tilesX, tilesY)
    ensures |result| == (tilesX * 256) * (tilesY * 256)
    ensures forall i | 0 <= i < |result| ::
      var x, y := i % (tilesX * 256), i / (tilesX * 256);
      result[i] == match load(x / 256, y / 256)
                   case None => 0xff090e0f
                   case Some(tile) => tile[y % 256 * 256 + x % 256]
  {
    hide Cell, Composite, Assembled;
    var width, height := tilesX * TILE, tilesY * TILE;
    var atlas := new nat[width * height](_ => BACKGROUND);
    FreshCells(atlas[..], width, height);
    for ty := 0 to tilesY
      invariant forall x: nat, y: nat | x < width && y < height ::
        Cell(atlas[..], width, x, y) == if Earlier(x, y, 0, ty) then Composite(load, x, y) else BACKGROUND
    {
      for tx := 0 to tilesX
        invariant forall x: nat, y: nat | x < width && y < height ::
          Cell(atlas[..], width, x, y) == if Earlier(x, y, tx, ty) then Composite(load, x, y) else BACKGROUND
      {
        var tile := load(tx, ty);
        forall x: nat, y: nat ensures x / TILE == tx && y / TILE == ty ==>
          Composite(load, x, y) == if tile.None? then BACKGROUND else tile.value[y % TILE * TILE + x % TILE]
        {
          CompositeOf(load, x, y);
        }
        if tile.None? {
          continue;
        }
        CopyTile(atlas, width, height, tile.value, tx, ty);
      }
    }
    result := atlas[..];
    AllAssembled(result, load, tilesX, tilesY);
    AssembledPixels(load, tilesX, tilesY);
  }

  lemma AllAssembled(result: seq<nat>, load: (int, int) -> Option<Tile>, tilesX: nat, tilesY: nat)
    requires |result| == (tilesX * TILE) * (tilesY * TILE)
    requires forall x: nat, y: nat | x < tilesX * TILE && y < tilesY * TILE ::
      Cell(result, tilesX * TILE, x, y) == if Earlier(x, y, 0, tilesY) then Composite(load, x, y) else BACKGROUND
    ensures result == Assembled(load, tilesX, tilesY)
  {
    hide Cell, Composite, Assembled, Earlier;
    var width, height, all := tilesX * TILE, tilesY * TILE, Assembled(load, tilesX, tilesY);
    AssembledLength(load, tilesX, tilesY);
    forall i | 0 <= i < |all| ensures result[i] == all[i] {
      AssembledOne(result, load, width, height, tilesY, i);
    }
  }

  lemma AssembledOne(result: seq<nat>, load: (int, int) -> Option<Tile>, width: nat, height: nat, tilesY: nat, i: nat)
    requires height == tilesY * TILE && |result| == width * height && i < |result|
    requires forall x: nat, y: nat | x < width && y < height ::
      Cell(result, width, x, y) == if Earlier(x, y, 0, tilesY) then Composite(load, x, y) else BACKGROUND
    ensures width > 0 && result[i] == Composite(load, i % width, i / width)
  {
    hide Cell, Composite, Earlier;
    CellOfIndex(result, width, height, i);
    AllEarlier(i % width, i / width, tilesY);
  }

  lemma AllEarlier(x: nat, y: nat, tilesY: nat)
    requires y < tilesY * TILE
    ensures Earlier(x, y, 0, tilesY)
  {
  }

  lemma AssembledLength(load: (int, int) -> Option<Tile>, tilesX: nat, tilesY: nat)
    ensures var all, width := Assembled(load, tilesX, tilesY), tilesX * TILE;
      |all| == width * (tilesY * TILE) && forall i | 0 <= i < |all| :: all[i] == Composite(load, i % width, i / width)
  {
    hide Composite;
  }

  lemma AssembledPixels(load: (int, int) -> Option<Tile>, tilesX: nat, tilesY: nat)
    ensures var all := Assembled(load, tilesX, tilesY);
      forall i | 0 <= i < |all| ::
        var x, y := i % (tilesX * 256), i / (tilesX * 256);
        all[i] == match load(x / 256, y / 256)
                  case None => 0xff090e0f
                  case Some(tile) => tile[y % 256 * 256 + x % 256]
  {
  }

  lemma CompositeOf(load: (int, int) -> Option<Tile>, x: nat, y: nat)
    ensures Composite(load, x, y)
         == match load(x / TILE, y / TILE)
            case None => BACKGROUND
            case Some(tile) => tile[y % TILE * TILE + x % TILE]
  {
  }

  lemma FreshCells(s: seq<nat>, width: nat, height: nat)
    requires |s| == width * height && forall i | 0 <= i < |s| :: s[i] == BACKGROUND
    ensures forall x: nat, y: nat | x < width && y < height :: Cell(s, width, x, y) == BACKGROUND
  {
    forall x: nat, y: nat | x < width && y < height ensures Cell(s, width, x, y) == BACKGROUND {
      RowsGrow(y, height, width);
    }
  }

  lemma CellOfIndex(s: seq<nat>, width: nat, height: nat, i: nat)
    requires |s| == width * height && i < |s|
    ensures width > 0 && i % width < width && i / width < height && Cell(s, width, i % width, i / width) == s[i]
  {
    assert width > 0;
    assert i == width * (i / width) + i % width;
    ProductGrows(width, height, i / width);
  }

  // ----- From the mosaic to the atlas and back ---------------------------------------------

  /** The tile holds the mosaic's pixels at its place, opaque. */
  ghost predicate Shows(tile: Tile, image: seq<byte>, width: nat, tx: nat, ty: nat) {
    forall x: nat, y: nat | x < TILE && y < TILE ::
      Cell(tile, TILE, x, y) == MosaicPixel(image, width, tx * TILE + x, ty * TILE + y)
  }

  function MosaicPixel(image: seq<byte>, width: nat, x: nat, y: nat): nat {
    Argb(0xff, Channel(image, width, x, y, 0), Channel(image, width, x, y, 1), Channel(image, width, x, y, 2))
  }

  /** A pixel is its four bytes. */
  lemma BytesTellPixel(v: nat, alpha: byte, red: byte, green: byte, blue: byte)
    requires v / 0x100_0000 == alpha as int && v / 0x1_0000 % 256 == red as int
    requires v / 0x100 % 256 == green as int && v % 256 == blue as int
    ensures v == Argb(alpha, red, green, blue)
  {
    var a, b := v / 0x100, v / 0x1_0000;
    assert b == a / 0x100 && v / 0x100_0000 == b / 0x100;
    assert b == alpha as int * 0x100 + red as int;
    assert a == b * 0x100 + green as int;
    assert v == a * 0x100 + blue as int;
  }

  /** write_png, then decode_png. */
  method StoreAndLoad(rgb: seq<byte>, z: Zlib) returns (tile: Tile)
    requires Faithful(z) && |rgb| == TILE * 3 * TILE
    ensures forall i | 0 <= i < 256 * 256 ::
      && tile[i] / 0x100_0000 == 0xff && tile[i] / 0x1_0000 % 256 == rgb[3 * i] as int
      && tile[i] / 0x100 % 256 == rgb[3 * i + 1] as int && tile[i] % 256 == rgb[3 * i + 2] as int
  {
    hide Encodes, ParseChunks, ChunksBytes, FileChunks, ValidFilters;
    ScanLinesAt(rgb, TILE * 3, TILE);
    var payload := WritePng(TILE, TILE, rgb, z);
    ghost var raw := ScanLines(rgb, TILE * 3, TILE);
    EncodesLength(raw, rgb, TILE * 3, 3, TILE);
    EncodedLength(raw, rgb);
    var parts := [z.deflate(raw)];
    SplitDataJoins(TILE, TILE, 2, parts, z, []);
    assert payload + [] == payload;
    assert Concat(parts) == z.deflate(raw) + [] == z.deflate(raw);
    var decoded := DecodePng(payload, z);
    DecodesTo(raw, rgb, 3, decoded);
    return decoded.argb;
  }

  lemma EncodedLength(filtered: seq<byte>, rgb: seq<byte>)
    requires Encodes(filtered, rgb, TILE * 3, 3, TILE)
    ensures |filtered| == (TILE * 3 + 1) * TILE
  {
  }

  /** The loader of a set of tile files. */
  function Loader(tiles: map<(int, int), Tile>): (int, int) -> Option<Tile> {
    (tx, ty) => if (tx, ty) in tiles then Some(tiles[(tx, ty)]) else None
  }

  /** The whole pipeline: cut the mosaic, write every tile, decode every tile, put
      the atlas together over the same range. Every pixel is back at its place. */
  method MosaicRoundTrip(image: seq<byte>, countX: nat, countY: nat, z: Zlib) returns (atlas: seq<nat>)
    requires Faithful(z) && |image| == (countX * TILE) * (countY * TILE) * 3
    ensures |atlas| == (countX * TILE) * (countY * TILE)
    // Both are row by row: pixel i of the atlas is opaque and has bytes 3 * i to 3 * i + 2 of the mosaic.
    ensures forall i | 0 <= i < |atlas| ::
      && atlas[i] / 0x100_0000 == 0xff && atlas[i] / 0x1_0000 % 256 == image[3 * i] as int
      && atlas[i] / 0x100 % 256 == image[3 * i + 1] as int && atlas[i] % 256 == image[3 * i + 2] as int
  {
    hide Shows, Cell;
    var tiles := StoreMosaic(image, countX, countY, z);
    var width, height := countX * TILE, countY * TILE;
    atlas := Assemble(Loader(tiles), countX, countY);
    forall x: nat, y: nat | x < width && y < height
      ensures Cell(atlas, width, x, y) == MosaicPixel(image, width, x, y)
    {
      AssembledCell(Loader(tiles), countX, countY, x, y);
      assert Shows(tiles[(x / TILE, y / TILE)], image, width, x / TILE, y / TILE);
      ShowsPixel(tiles[(x / TILE, y / TILE)], image, width, x, y);
    }
    MosaicBack(atlas, image, width, height);
  }

  /** Every tile of the mosaic cut, written and decoded. */
  method StoreMosaic(image: seq<byte>, countX: nat, countY: nat, z: Zlib) returns (tiles: map<(int, int), Tile>)
    requires Faithful(z) && |image| == (countX * TILE) * (countY * TILE) * 3
    ensures forall u: nat, v: nat | u < countX && v < countY ::
      (u, v) in tiles && Shows(tiles[(u, v)], image, countX * TILE, u, v)
  {
    hide Shows, Channel;
    var width := countX * TILE;
    tiles := map[];
    for ty := 0 to countY
      invariant forall u: nat, v: nat | u < countX && v < ty ::
        (u, v) in tiles && Shows(tiles[(u, v)], image, width, u, v)
    {
      for tx := 0 to countX
        invariant forall u: nat, v: nat | u < countX && (v < ty || (v == ty && u < tx)) ::
          (u, v) in tiles && Shows(tiles[(u, v)], image, width, u, v)
      {
        var rgb := CutTile(image, countX, countY, tx, ty);
        var tile := StoreAndLoad(rgb, z);
        StoredShows(tile, rgb, image, width, tx, ty);
        tiles := tiles[(tx, ty) := tile];
      }
    }
  }

  lemma MosaicBack(atlas: seq<nat>, image: seq<byte>, width: nat, height: nat)
    requires |atlas| == width * height && |image| == width * height * 3
    requires forall x: nat, y: nat | x < width && y < height ::
      Cell(atlas, width, x, y) == MosaicPixel(image, width, x, y)
    ensures forall i | 0 <= i < |atlas| ::
      && atlas[i] / 0x100_0000 == 0xff && atlas[i] / 0x1_0000 % 256 == image[3 * i] as int
      && atlas[i] / 0x100 % 256 == image[3 * i + 1] as int && atlas[i] % 256 == image[3 * i + 2] as int
  {
    hide Cell, MosaicPixel;
    forall i | 0 <= i < |atlas|
      ensures atlas[i] / 0x100_0000 == 0xff && atlas[i] / 0x1_0000 % 256 == image[3 * i] as int
      ensures atlas[i] / 0x100 % 256 == image[3 * i + 1] as int && atlas[i] % 256 == image[3 * i + 2] as int
    {
      CellOfIndex(atlas, width, height, i);
      PixelOfIndex(image, width, height, i);
    }
  }

  lemma PixelOfIndex(image: seq<byte>, width: nat, height: nat, i: nat)
    requires width > 0 && |image| == width * height * 3 && i < width * height
    ensures var v := MosaicPixel(image, width, i % width, i / width);
      && v / 0x100_0000 == 0xff && v / 0x1_0000 % 256 == image[3 * i] as int
      && v / 0x100 % 256 == image[3 * i + 1] as int && v % 256 == image[3 * i + 2] as int
  {
    hide Argb;
    assert i / width * width + i % width == i;
  }

  lemma StoredShows(tile: Tile, rgb: seq<byte>, image: seq<byte>, width: nat, tx: nat, ty: nat)
    requires |rgb| == TILE * 3 * TILE
    requires forall i | 0 <= i < 256 * 256 ::
      && tile[i] / 0x100_0000 == 0xff && tile[i] / 0x1_0000 % 256 == rgb[3 * i] as int
      && tile[i] / 0x100 % 256 == rgb[3 * i + 1] as int && tile[i] % 256 == rgb[3 * i + 2] as int
    requires forall x: nat, y: nat, k: nat | x < TILE && y < TILE && k < 3 ::
      Channel(rgb, TILE, x, y, k) == Channel(image, width, tx * TILE + x, ty * TILE + y, k)
    ensures Shows(tile, image, width, tx, ty)
  {
    hide Argb;
    forall x: nat, y: nat | x < TILE && y < TILE
      ensures Cell(tile, TILE, x, y) == MosaicPixel(image, width, tx * TILE + x, ty * TILE + y)
    {
      var i := y * TILE + x;
      assert Channel(rgb, TILE, x, y, 0) == rgb[3 * i] && Channel(rgb, TILE, x, y, 1) == rgb[3 * i + 1];
      assert Channel(rgb, TILE, x, y, 2) == rgb[3 * i + 2];
      BytesTellPixel(tile[i], 0xff, rgb[3 * i], rgb[3 * i + 1], rgb[3 * i + 2]);
    }
  }

  lemma ShowsPixel(tile: Tile, image: seq<byte>, width: nat, x: nat, y: nat)
    requires Shows(tile, image, width, x / TILE, y / TILE)
    ensures tile[y % TILE * TILE + x % TILE] == MosaicPixel(image, width, x, y)
  {
    var u, v := x % TILE, y % TILE;
    assert Cell(tile, TILE, u, v) == MosaicPixel(image, width, x / TILE * TILE + u, y / TILE * TILE + v);
  }

  lemma AssembledCell(load: (int, int) -> Option<Tile>, tilesX: nat, tilesY: nat, x: nat, y: nat)
    requires x < tilesX * TILE && y < tilesY * TILE
    ensures Cell(Assembled(load, tilesX, tilesY), tilesX * TILE, x, y) == Composite(load, x, y)
  {
    RowsGrow(y, tilesY * TILE, tilesX * TILE);
    RowAndColumn(tilesX * TILE, y, x);
  }
}
