/** The diamond (isometric) projection between grid cells and world points, and
    its inverse from a pointer position. Exact rational arithmetic stands for the
    engine's floating point. */
module Isometric {
  import opened Grid

  /** A point in world (or viewport) coordinates. */
  datatype Point = Point(x: real, y: real)

  const TileSize: real := 64.0
  const OriginX: real := 400.0
  const OriginY: real := 200.0

  /** The centre of a cell's diamond: half a tile across per column step, a quarter down. */
  function GetIsoPosition(gridX: int, gridY: int): Point {
    Point((gridX - gridY) as real * TileSize * 0.5 + OriginX,
          (gridX + gridY) as real * TileSize * 0.25 + OriginY)
  }

  /** Math.round on the values it meets here: the nearest integer, halves rounded up. */
  function Round(v: real): (r: int)
    ensures r as real - 0.5 <= v < r as real + 0.5
  {
    (v + 0.5).Floor
  }

  /** The offset of a world point from a cell's centre, in half-tile (across) and
      quarter-tile (down) units. */
  function TileOffset(worldX: real, worldY: real, c: Cell): (real, real) {
    var centre := GetIsoPosition(c.x, c.y);
    ((worldX - centre.x) / (TileSize * 0.5), (worldY - centre.y) / (TileSize * 0.25))
  }

  /** The world point lies in the drawn diamond of cell c, with the two upper edges
      included and the two lower ones left to the neighbours. */
  ghost predicate InTile(worldX: real, worldY: real, c: Cell) {
    var (u, v) := TileOffset(worldX, worldY, c);
    -1.0 <= u + v < 1.0 && -1.0 <= v - u < 1.0
  }

  function RealAbs(v: real): real { if v < 0.0 then -v else v }

  /** The pointer cell: add the camera scroll (viewport to world), undo the origin
      offset, invert the projection and round each coordinate. */
  function ScreenToGrid(screenX: real, screenY: real, scrollX: real, scrollY: real): (c: Cell)
    ensures InTile(screenX + scrollX, screenY + scrollY, c)
  {
    var adjustedScreenX := screenX + scrollX;
    var adjustedScreenY := screenY + scrollY;
    var isoX := adjustedScreenX - OriginX;
    var isoY := adjustedScreenY - OriginY;
    var gridX := (isoX / (TileSize * 0.5) + isoY / (TileSize * 0.25)) / 2.0;
    var gridY := (isoY / (TileSize * 0.25) - isoX / (TileSize * 0.5)) / 2.0;
    Cell(Round(gridX), Round(gridY))
  }

  /** Tiles do not overlap: a world point lies in the diamond of at most one cell. */
  lemma InTileUnique(worldX: real, worldY: real, c1: Cell, c2: Cell)
    requires InTile(worldX, worldY, c1) && InTile(worldX, worldY, c2)
    ensures c1 == c2
  {
    var (u1, v1) := TileOffset(worldX, worldY, c1);
    var (u2, v2) := TileOffset(worldX, worldY, c2);
    assert u1 + v1 - (u2 + v2) == 2.0 * (c2.x - c1.x) as real;
    assert (v1 - u1) - (v2 - u2) == 2.0 * (c2.y - c1.y) as real;
  }

  /** InTile is the tile polygon the scene draws, with vertices half a tile left
      and right and a quarter tile up and down of the centre: every point strictly
      inside the polygon is in the tile, and every point of the tile is in the
      closed polygon. */
  lemma InTileIsTileDiamond(worldX: real, worldY: real, c: Cell)
    ensures var (u, v) := TileOffset(worldX, worldY, c);
            (RealAbs(u) + RealAbs(v) < 1.0 ==> InTile(worldX, worldY, c)) &&
            (InTile(worldX, worldY, c) ==> RealAbs(u) + RealAbs(v) <= 1.0)
  {
  }

  /** Clicking the centre of a cell's diamond, under any camera scroll, selects that cell. */
  lemma ScreenToGridInvertsIsoPosition(gridX: int, gridY: int, scrollX: real, scrollY: real)
    ensures var p := GetIsoPosition(gridX, gridY);
            ScreenToGrid(p.x - scrollX, p.y - scrollY, scrollX, scrollY) == Cell(gridX, gridY)
  {
    var p := GetIsoPosition(gridX, gridY);
    var c := ScreenToGrid(p.x - scrollX, p.y - scrollY, scrollX, scrollY);
    assert (p.x - scrollX) + scrollX == p.x && (p.y - scrollY) + scrollY == p.y;
    assert TileOffset(p.x, p.y, Cell(gridX, gridY)) == (0.0, 0.0);
    InTileUnique(p.x, p.y, c, Cell(gridX, gridY));
  }
}
