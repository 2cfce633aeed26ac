/** The playing field: an inclusive box of cells inside a terminal of
    `limitX` by `limitY` characters, with a one-cell frame drawn around it. */
module Screens {
  import opened Blocks

  datatype Screen = Screen(minX: U16, maxX: U16, minY: U16, maxY: U16, limitX: U16, limitY: U16)
  {
    /** `Screen::new`. The `u16` subtractions need a size of at least 1.
        The playing box starts at column and row 2, so the frame drawn one
        cell outside it lies on the terminal's last column and row and on
        column and row 1. */
    static function New(sizeX: U16, sizeY: U16): (r: Screen)
      requires sizeX >= 1 && sizeY >= 1
      ensures r.limitX == sizeX && r.limitY == sizeY
      ensures r.minX - 1 == 1 && r.maxX + 1 == r.limitX
      ensures r.minY - 1 == 1 && r.maxY + 1 == r.limitY
    {
      Screen(2, sizeX - 1, 2, sizeY - 1, sizeX, sizeY)
    }

    /** `Screen::is_inbound`. */
    predicate IsInbound(item: Coordinates)
    {
      IsXInbound(item.x) && IsYInbound(item.y)
    }

    /** `Screen::is_x_inbound`: inclusive at both ends. */
    predicate IsXInbound(x: U16)
    {
      minX <= x && x <= maxX
    }

    /** `Screen::is_y_inbound`: inclusive at both ends. */
    predicate IsYInbound(y: U16)
    {
      minY <= y && y <= maxY
    }

    /** The cells a mouse can be placed on: `gen_range(min, max)` excludes
        `max`, so the last column and row of the playing box never get a
        mouse. */
    predicate InSpawnBox(c: Coordinates)
    {
      minX <= c.x < maxX && minY <= c.y < maxY
    }
  }

  /** On a screen built by `Screen::new(sizeX, sizeY)` a cell is in bounds
      exactly when it lies in [2, sizeX - 1] x [2, sizeY - 1]. */
  lemma NewScreenInbound(sizeX: U16, sizeY: U16, c: Coordinates)
    requires sizeX >= 1 && sizeY >= 1
    ensures Screen.New(sizeX, sizeY).IsInbound(c) <==> 2 <= c.x <= sizeX - 1 && 2 <= c.y <= sizeY - 1
  {
  }

  /** Every cell a mouse can be placed on is in bounds, and the box it is
      drawn from is strictly smaller than the playing box. */
  lemma SpawnBoxIsInbound(screen: Screen, c: Coordinates)
    requires screen.InSpawnBox(c)
    ensures screen.IsInbound(c)
    ensures screen.IsInbound(Coordinates(screen.maxX, c.y)) && !screen.InSpawnBox(Coordinates(screen.maxX, c.y))
  {
  }

  /** A unit step from an in-bounds cell of a screen built by `Screen::new`
      never wraps: the playing box starts at 2, so a head walking off the
      left or top edge reaches coordinate 1 (out of bounds) before any wrap.
      This covers the head only; nothing checks tail blocks against the
      bounds, and they can wrap while the game goes on. */
  lemma UnitStepFromInboundNeverWraps(sizeX: U16, sizeY: U16, c: Coordinates, v: Velocity)
    requires sizeX >= 1 && sizeY >= 1
    requires Screen.New(sizeX, sizeY).IsInbound(c)
    requires -1 <= v.velX <= 1 && -1 <= v.velY <= 1
    ensures Step(c.x, v.velX) == c.x + v.velX && Step(c.y, v.velY) == c.y + v.velY
    ensures Step(c.x, v.velX) >= 1 && Step(c.y, v.velY) >= 1
  {
  }
}
