// The map renderer's atlas cache: which package is active, which tiles are in
// view, and when the atlas kept from earlier frames may be used again.
module MapRenderer {
  import Arithmetic
  import opened Bytes
  import opened Png
  import opened TileAtlas

  const MIN_ZOOM: int := 13
  const MAX_ZOOM: int := 18

  /** An offline package as the renderer asks it: bounds, zoom and area. */
  datatype Package = Package(contains: (real, real) -> bool, maxZoom: int, coveredArea: real)

  datatype MapState = MapState(latitude: real, longitude: real, zoom: real, panX: real, panY: real, width: real,
                               height: real)

  /** A conversion to int in C++ drops the fraction. */
  function Truncate(v: real): (n: int)
    ensures v >= 0.0 ==> n as real <= v < n as real + 1.0
    ensures v < 0.0 ==> n as real - 1.0 < v <= n as real
  {
    if v >= 0.0 then v.Floor else -((-v).Floor)
  }

  /** Integer division in C++ rounds towards zero. */
  function Quotient(n: int, d: nat): (q: int)
    requires d > 0
    ensures n >= 0 ==> q * d <= n < q * d + d
    ensures n < 0 ==> q * d - d < n <= q * d
  {
    if n >= 0 then n / d else -(-n / d)
  }

  /** What the atlas depends on: zoom level and tile range. */
  datatype View = View(zoom: int, minX: int, minY: int, tilesX: int, tilesY: int)

  /** Everything outside the renderer that it reads: the packages, the tiles they
      and the tile directory hold, and the projection. */
  datatype World = World(packages: seq<Package>,
                         hasTile: (Option<nat>, int, int, int) -> bool,
                         load: (Option<nat>, int, int, int) -> Option<Tile>,
                         project: (real, real, int) -> (real, real),
                         powerOfTwo: real -> real)

  ghost predicate Sensible(w: World) {
    forall e :: w.powerOfTwo(e) > 0.0
  }

  /** Is there a tile at the state's position on a zoom level? */
  predicate HasTileAt(w: World, package: Option<nat>, state: MapState, zoom: int) {
    var probe := w.project(state.latitude, state.longitude, zoom);
    w.hasTile(package, zoom, Quotient(Truncate(probe.0), TILE), Quotient(Truncate(probe.1), TILE))
  }

  /** The highest zoom level, from zoom down, with a tile in place; the lowest is taken
      without asking. */
  function ProbedZoom(w: World, package: Option<nat>, state: MapState, zoom: int): (found: int)
    requires zoom >= MIN_ZOOM
    ensures MIN_ZOOM <= found <= zoom
    ensures found > MIN_ZOOM ==> HasTileAt(w, package, state, found)
    ensures forall z | found < z <= zoom :: !HasTileAt(w, package, state, z)
    decreases zoom
  {
    if zoom == MIN_ZOOM || HasTileAt(w, package, state, zoom) then zoom
    else ProbedZoom(w, package, state, zoom - 1)
  }

  function Clamp(v: int): (r: int)
    ensures 13 <= r <= 18 && (13 <= v <= 18 ==> r == v) && (v < 13 ==> r == 13) && (v > 18 ==> r == 18)
  {
    if v < MIN_ZOOM then MIN_ZOOM else if v > MAX_ZOOM then MAX_ZOOM else v
  }

  /** The view a state asks for when a package is active. */
  ghost function Wanted(w: World, package: Option<nat>, state: MapState): View
    requires Sensible(w)
  {
    var zoom := ProbedZoom(w, package, state, Clamp(state.zoom.Floor));
    var xs, ys := SpanX(w, state, zoom), SpanY(w, state, zoom);
    View(zoom, xs.0, ys.0, xs.1 - xs.0 + 1, ys.1 - ys.0 + 1)
  }

  /** The first and the last tile of a stretch of the map, and one more at either end. */
  function Span(center: real, half: real): (int, int) {
    (((center - half) / TILE as real).Floor - 1, ((center + half) / TILE as real).Floor + 1)
  }

  /** Where the view has its centre and how far it extends, in pixels of a zoom level. */
  ghost function CenterX(w: World, state: MapState, zoom: int): real
    requires Sensible(w)
  {
    w.project(state.latitude, state.longitude, zoom).0 - state.panX / w.powerOfTwo(state.zoom - zoom as real)
  }

  ghost function CenterY(w: World, state: MapState, zoom: int): real
    requires Sensible(w)
  {
    w.project(state.latitude, state.longitude, zoom).1 - state.panY / w.powerOfTwo(state.zoom - zoom as real)
  }

  ghost function Half(w: World, state: MapState, zoom: int, size: real): real
    requires Sensible(w)
  {
    size / (2.0 * w.powerOfTwo(state.zoom - zoom as real))
  }

  ghost function SpanX(w: World, state: MapState, zoom: int): (int, int)
    requires Sensible(w)
  {
    Span(CenterX(w, state, zoom), Half(w, state, zoom, state.width))
  }

  ghost function SpanY(w: World, state: MapState, zoom: int): (int, int)
    requires Sensible(w)
  {
    Span(CenterY(w, state, zoom), Half(w, state, zoom, state.height))
  }

  /** The atlas a full rebuild for this package and view produces. */
  ghost function Rebuilt(w: World, package: Option<nat>, view: View): seq<nat>
    requires view.tilesX >= 0 && view.tilesY >= 0
  {
    Assembled(Range(w, package, view), view.tilesX, view.tilesY)
  }

  function Range(w: World, package: Option<nat>, view: View): (int, int) -> Option<Tile> {
    (tx, ty) => w.load(package, view.zoom, view.minX + tx, view.minY + ty)
  }

  /** Is package a a better choice than b? */
  predicate Better(w: World, a: nat, b: nat)
    requires a < |w.packages| && b < |w.packages|
  {
    var p, q := w.packages[a], w.packages[b];
    p.maxZoom > q.maxZoom || (p.maxZoom == q.maxZoom && p.coveredArea < q.coveredArea)
  }

  /** The package to use at a position: the deepest, then smallest, one that
      contains it; the first of equals. */
  ghost predicate Best(w: World, latitude: real, longitude: real, package: Option<nat>) {
    if package.None? then forall i | 0 <= i < |w.packages| :: !w.packages[i].contains(latitude, longitude)
    else
      && package.value < |w.packages| && w.packages[package.value].contains(latitude, longitude)
      && (forall i | 0 <= i < |w.packages| && w.packages[i].contains(latitude, longitude) ::
          !Better(w, i, package.value))
      && (forall i | 0 <= i < package.value && w.packages[i].contains(latitude, longitude) ::
          Better(w, package.value, i))
  }

  class GpuMapRenderer {
    const world: World
    var activePackage: Option<nat>
    var atlas: seq<nat>
    var atlasZoom: int
    var atlasMinX: int
    var atlasMinY: int
    var atlasTilesX: int
    var atlasTilesY: int
    var texture: seq<nat>
    var textureUploads: nat
    /** Did the upload of the present atlas fail? */
    ghost var stale: bool

    constructor (world: World)
      requires Sensible(world)
      ensures Valid() && this.world == world && activePackage == None && atlasZoom == -1 && texture == []
        && textureUploads == 0
    {
      this.world := world;
      activePackage, atlas, texture, textureUploads, stale := None, [], [], 0, false;
      atlasZoom, atlasMinX, atlasMinY, atlasTilesX, atlasTilesY := -1, 0, 0, 0, 0;
    }

    ghost function Key(): View
      reads this
    {
      View(atlasZoom, atlasMinX, atlasMinY, atlasTilesX, atlasTilesY)
    }

    /** A key other than -1 describes the atlas for the active package; the texture
        shows the atlas unless its upload failed. */
    ghost predicate Valid()
      reads this
    {
      && Sensible(world)
      && (atlasZoom != -1 ==>
            && atlasTilesX >= 0 && atlasTilesY >= 0
            && atlas == Rebuilt(world, activePackage, Key())
            && (!stale ==> texture == atlas))
    }

    method SelectPackage(latitude: real, longitude: real)
      requires Valid()
      modifies this`activePackage, this`atlasZoom
      ensures Valid() && Best(world, latitude, longitude, activePackage)
      ensures if activePackage == old(activePackage) then atlasZoom == old(atlasZoom) else atlasZoom == -1
    {
      hide Rebuilt;
      var best: Option<nat> := None;
      for i := 0 to |world.packages|
        invariant best.None? ==> forall k | 0 <= k < i :: !world.packages[k].contains(latitude, longitude)
        invariant best.Some? ==>
          && best.value < i && world.packages[best.value].contains(latitude, longitude)
          && (forall k | 0 <= k < i && world.packages[k].contains(latitude, longitude) :: !Better(world, k, best.value))
          && (forall k | 0 <= k < best.value && world.packages[k].contains(latitude, longitude) ::
              Better(world, best.value, k))
      {
        var package := world.packages[i];
        if !package.contains(latitude, longitude) {
          continue;
        }
        if best.None? || package.maxZoom > world.packages[best.value].maxZoom
           || (package.maxZoom == world.packages[best.value].maxZoom
               && package.coveredArea < world.packages[best.value].coveredArea) {
          best := Some(i);
        }
      }
      if best != activePackage {
        activePackage := best;
        atlasZoom := -1;
      }
    }

    /** ensure_atlas. uploaded: the texture upload, if one is needed, succeeds. */
    method EnsureAtlas(state: MapState, uploaded: bool) returns (ok: bool)
      requires Valid() && state.width >= 1.0 && state.height >= 1.0
      modifies this
      ensures Valid() && Best(world, state.latitude, state.longitude, activePackage)
      // Kept or rebuilt, the atlas is what a full rebuild for this state produces.
      ensures Key() == Wanted(world, activePackage, state) && atlasTilesX > 0 && atlasTilesY > 0
      ensures atlas == Rebuilt(world, activePackage, Wanted(world, activePackage, state))
      // The early return takes no upload and answers true, even after a failed one.
      ensures old(Reuses(state)) ==>
        ok && texture == old(texture) && textureUploads == old(textureUploads) && stale == old(stale)
      ensures !old(Reuses(state)) ==>
        && ok == uploaded && stale == !uploaded
        && textureUploads == old(textureUploads) + (if uploaded then 1 else 0)
        && (if uploaded then texture == atlas else texture == old(texture))
      ensures ok && !stale ==> texture == atlas
    {
      hide Rebuilt, Wanted, Best;
      ghost var package := activePackage;
      SelectPackage(state.latitude, state.longitude);
      if Best(world, state.latitude, state.longitude, package) {
        BestIsUnique(world, state.latitude, state.longitude, package, activePackage);
      }
      var view := VisibleRange(state);
      if atlasZoom == view.zoom && atlasMinX == view.minX && atlasMinY == view.minY
         && atlasTilesX == view.tilesX && atlasTilesY == view.tilesY {
        return true;
      }
      ok := Rebuild(view, uploaded);
    }

    /** The second half of ensure_atlas: a fresh atlas, then its upload. */
    method Rebuild(view: View, uploaded: bool) returns (ok: bool)
      requires Valid() && view.tilesX > 0 && view.tilesY > 0
      modifies this
      ensures Valid() && activePackage == old(activePackage)
      ensures Key() == view && atlas == Rebuilt(world, activePackage, view)
      ensures ok == uploaded && stale == !uploaded
      ensures textureUploads == old(textureUploads) + (if uploaded then 1 else 0)
      ensures texture == if uploaded then atlas else old(texture)
    {
      hide Rebuilt;
      atlasZoom, atlasMinX, atlasMinY := view.zoom, view.minX, view.minY;
      atlasTilesX, atlasTilesY := view.tilesX, view.tilesY;
      atlas := Assemble(Range(world, activePackage, view), atlasTilesX, atlasTilesY);
      RebuiltIs(world, activePackage, view);
      stale := !uploaded;
      if !uploaded {
        return false;
      }
      texture := atlas;
      textureUploads := textureUploads + 1;
      return true;
    }

    /** The first half of ensure_atlas: the zoom level with tiles, and the range of
        tiles in view. */
    method VisibleRange(state: MapState) returns (view: View)
      requires Sensible(world) && state.width >= 1.0 && state.height >= 1.0
      ensures view == Wanted(world, activePackage, state)
      ensures view.zoom >= MIN_ZOOM && view.tilesX > 0 && view.tilesY > 0
    {
      var zoom := ProbeZoom(state);
      var scale := world.powerOfTwo(state.zoom - zoom as real);
      var center := world.project(state.latitude, state.longitude, zoom);
      var x, y := center.0 - state.panX / scale, center.1 - state.panY / scale;
      var halfWidth, halfHeight := state.width / (2.0 * scale), state.height / (2.0 * scale);
      var minX, minY := ((x - halfWidth) / TILE as real).Floor - 1, ((y - halfHeight) / TILE as real).Floor - 1;
      var maxX, maxY := ((x + halfWidth) / TILE as real).Floor + 1, ((y + halfHeight) / TILE as real).Floor + 1;
      RangeIsPositive(x, halfWidth, state.width, scale);
      RangeIsPositive(y, halfHeight, state.height, scale);
      return View(zoom, minX, minY, maxX - minX + 1, maxY - minY + 1);
    }

    method ProbeZoom(state: MapState) returns (zoom: int)
      ensures zoom == ProbedZoom(world, activePackage, state, Clamp(state.zoom.Floor))
      ensures MIN_ZOOM <= zoom <= Clamp(state.zoom.Floor)
      ensures zoom > MIN_ZOOM ==> HasTileAt(world, activePackage, state, zoom)
      ensures forall z | zoom < z <= Clamp(state.zoom.Floor) :: !HasTileAt(world, activePackage, state, z)
    {
      zoom := Clamp(state.zoom.Floor);
      while zoom > MIN_ZOOM
        invariant MIN_ZOOM <= zoom <= Clamp(state.zoom.Floor)
        invariant forall z | zoom < z <= Clamp(state.zoom.Floor) :: !HasTileAt(world, activePackage, state, z)
        decreases zoom
      {
        var probe := world.project(state.latitude, state.longitude, zoom);
        if world.hasTile(activePackage, zoom, Quotient(Truncate(probe.0), TILE), Quotient(Truncate(probe.1), TILE)) {
          break;
        }
        zoom := zoom - 1;
      }
      HighestIsUnique(world, activePackage, state, Clamp(state.zoom.Floor), zoom);
    }

    lemma AtlasIsNotEmpty()
      requires Valid() && atlasZoom != -1 && atlasTilesX > 0 && atlasTilesY > 0
      ensures atlas != []
    {
      Arithmetic.ProductGrows(atlasTilesX * TILE, 1, atlasTilesY * TILE);
    }

    /** The early return: same package as before, same view. */
    ghost predicate Reuses(state: MapState)
      requires Sensible(world)
      reads this
    {
      Best(world, state.latitude, state.longitude, activePackage) && Key() == Wanted(world, activePackage, state)
    }
  }

  lemma HighestIsUnique(w: World, package: Option<nat>, state: MapState, top: int, zoom: int)
    requires MIN_ZOOM <= zoom <= top && (zoom > MIN_ZOOM ==> HasTileAt(w, package, state, zoom))
    requires forall z | zoom < z <= top :: !HasTileAt(w, package, state, z)
    ensures zoom == ProbedZoom(w, package, state, top)
  {
    hide HasTileAt;
    var other := ProbedZoom(w, package, state, top);
  }

  /** A point of the map at (x, y) in pixels of the zoom level is drawn this far right of
      and below the middle of the view: the state's position is panned away from it. */
  function OffsetX(w: World, state: MapState, zoom: int, x: real): real {
    (x - w.project(state.latitude, state.longitude, zoom).0) * w.powerOfTwo(state.zoom - zoom as real) + state.panX
  }

  function OffsetY(w: World, state: MapState, zoom: int, y: real): real {
    (y - w.project(state.latitude, state.longitude, zoom).1) * w.powerOfTwo(state.zoom - zoom as real) + state.panY
  }

  /** Everything drawn inside the view lies on the tiles of the range with one tile to spare on every
      side, and the range is less than four tiles wider and higher than the view. */
  lemma RangeCoversView(w: World, package: Option<nat>, state: MapState, x: real, y: real)
    requires Sensible(w)
    requires var zoom := ProbedZoom(w, package, state, Clamp(state.zoom.Floor));
      && -state.width / 2.0 <= OffsetX(w, state, zoom, x) <= state.width / 2.0
      && -state.height / 2.0 <= OffsetY(w, state, zoom, y) <= state.height / 2.0
    ensures var view := Wanted(w, package, state);
      && view.minX < (x / 256.0).Floor < view.minX + view.tilesX - 1
      && view.minY < (y / 256.0).Floor < view.minY + view.tilesY - 1
      && ((view.tilesX - 4) * 256) as real * w.powerOfTwo(state.zoom - view.zoom as real) < state.width
      && ((view.tilesY - 4) * 256) as real * w.powerOfTwo(state.zoom - view.zoom as real) < state.height
  {
    hide Span, ProbedZoom, Clamp;
    var zoom := ProbedZoom(w, package, state, Clamp(state.zoom.Floor));
    var scale := w.powerOfTwo(state.zoom - zoom as real);
    var position := w.project(state.latitude, state.longitude, zoom);
    SpanCoversScreen(position.0, state.panX, state.width, scale, x);
    SpanCoversScreen(position.1, state.panY, state.height, scale, y);
  }

  lemma SpanCoversScreen(position: real, pan: real, size: real, scale: real, v: real)
    requires scale > 0.0 && -size / 2.0 <= (v - position) * scale + pan <= size / 2.0
    ensures var (low, high) := Span(position - pan / scale, size / (2.0 * scale));
      && low < (v / 256.0).Floor < high
      && ((high - low + 1 - 4) * 256) as real * scale < size
  {
    hide Span;
    var half, center := size / (2.0 * scale), position - pan / scale;
    ScreenToMap(position, pan, size, scale, v);
    HalfBack(size, scale);
    hide InView;
    SpanCovers(center, half, v);
    var (low, high) := Span(center, half);
    Times(((high - low + 1 - 4) * 256) as real, 2.0 * half, scale);
  }

  lemma HalfBack(size: real, scale: real)
    requires scale > 0.0
    ensures size / (2.0 * scale) * scale == size / 2.0
    ensures 2.0 * (size / (2.0 * scale)) * scale == size
  {
    var half := size / (2.0 * scale);
    assert half * (2.0 * scale) == size;
  }

  lemma Times(a: real, b: real, c: real)
    requires a < b && c > 0.0
    ensures a * c < b * c
  {
  }

  lemma ScreenToMap(position: real, pan: real, size: real, scale: real, v: real)
    requires scale > 0.0 && -size / 2.0 <= (v - position) * scale + pan <= size / 2.0
    ensures InView(position - pan / scale, size / (2.0 * scale), v)
  {
    var half, shift, d := size / (2.0 * scale), pan / scale, v - position;
    HalfBack(size, scale);
    assert shift * scale == pan;
    assert (half - shift) * scale == half * scale - shift * scale;
    assert (-half - shift) * scale == -(half * scale) - shift * scale;
    if d > half - shift {
      Times(half - shift, d, scale);
    }
    if d < -half - shift {
      Times(d, -half - shift, scale);
    }
  }

  predicate InView(center: real, half: real, v: real) {
    center - half <= v <= center + half
  }

  lemma SpanCovers(center: real, half: real, v: real)
    requires InView(center, half, v)
    ensures var (low, high) := Span(center, half);
      && low < (v / TILE as real).Floor < high
      && ((high - low + 1 - 4) * TILE) as real < 2.0 * half
  {
    var a, b, c := (center - half) / 256.0, v / 256.0, (center + half) / 256.0;
    assert a <= b <= c;
    assert a.Floor <= b.Floor <= c.Floor;
    assert (c.Floor - a.Floor - 1) as real < c - a;
  }

  /** The atlas shows the map: the pixel of the world at (x, y) on the zoom level is that
      of the tile it lies on, or background where the tile does not load. */
  lemma AtlasShowsWorld(w: World, package: Option<nat>, view: View, x: int, y: int)
    requires view.tilesX >= 0 && view.tilesY >= 0
    requires view.minX * 256 <= x < (view.minX + view.tilesX) * 256
    requires view.minY * 256 <= y < (view.minY + view.tilesY) * 256
    ensures var atlas := Rebuilt(w, package, view);
      var i := (y - view.minY * 256) * (view.tilesX * 256) + (x - view.minX * 256);
      && 0 <= i < |atlas|
      && atlas[i] == match w.load(package, view.zoom, x / 256, y / 256)
                     case None => 0xff090e0f
                     case Some(tile) => tile[y % 256 * 256 + x % 256]
  {
    var u, v := x - view.minX * 256, y - view.minY * 256;
    AssembledCell(Range(w, package, view), view.tilesX, view.tilesY, u, v);
    Arithmetic.RowsGrow(v, view.tilesY * 256, view.tilesX * 256);
    assert u / 256 == x / 256 - view.minX && u % 256 == x % 256;
    assert v / 256 == y / 256 - view.minY && v % 256 == y % 256;
  }

  lemma RebuiltIs(w: World, package: Option<nat>, view: View)
    requires view.tilesX >= 0 && view.tilesY >= 0
    ensures Rebuilt(w, package, view) == Assembled(Range(w, package, view), view.tilesX, view.tilesY)
  {
  }

  lemma RangeIsPositive(center: real, half: real, size: real, scale: real)
    requires size >= 1.0 && scale > 0.0 && half == size / (2.0 * scale)
    ensures ((center - half) / TILE as real).Floor <= ((center + half) / TILE as real).Floor
  {
    assert half > 0.0;
    assert (center - half) / TILE as real <= (center + half) / TILE as real;
  }

  /** Best is a choice of one: two best packages are the same. */
  lemma BestIsUnique(w: World, latitude: real, longitude: real, a: Option<nat>, b: Option<nat>)
    requires Best(w, latitude, longitude, a) && Best(w, latitude, longitude, b)
    ensures a == b
  {
  }

  // ----- A failed upload -------------------------------------------------------------------

  /** After a failed upload the same view is answered with true although the texture
      was never updated: the second call of this run succeeds with an empty texture. */
  method FailedUploadIsForgotten(world: World, state: MapState) returns (renderer: GpuMapRenderer)
    requires Sensible(world) && state.width >= 1.0 && state.height >= 1.0
    ensures fresh(renderer) && renderer.Valid() && renderer.stale && renderer.textureUploads == 0
    ensures renderer.texture == [] && renderer.atlas != []
  {
    renderer := new GpuMapRenderer(world);
    var first := renderer.EnsureAtlas(state, false);
    var second := renderer.EnsureAtlas(state, true);
    assert !first && second;
    renderer.AtlasIsNotEmpty();
  }
}
