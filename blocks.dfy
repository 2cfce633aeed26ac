/** The leaves of the snake simulation: integer widths, velocities, grid
    coordinates and the single block that every moving thing is made of. */
module Blocks {

  /** Rust's `u16`: screen coordinates. */
  type U16 = x: int | 0 <= x < 0x1_0000

  /** Rust's `i16`: one component of a velocity. */
  type I16 = v: int | -0x8000 <= v < 0x8000

  /** `i16::abs` as an optimised build computes it: -32768 has no positive
      counterpart and is returned unchanged (still negative). */
  function WrappingAbs(v: I16): I16
  {
    if v == -0x8000 then v else if v < 0 then -v else v
  }

  /** `v as u16`: the two's complement bit pattern read as unsigned. */
  function AsU16(v: I16): U16
  {
    if v < 0 then v + 0x1_0000 else v
  }

  /** `u16::wrapping_add`. */
  function WrappingAdd(a: U16, b: U16): U16
  {
    (a + b) % 0x1_0000
  }

  /** One axis of `Block::do_move`: add the velocity component when its
      absolute value is positive, wrapping modulo 2^16. */
  function Step(c: U16, v: I16): (r: U16)
    ensures v != -0x8000 ==> r == (c + v) % 0x1_0000
    ensures v == -0x8000 ==> r == c
    ensures c == 0 && v == -1 ==> r == 0xFFFF
  {
    if WrappingAbs(v) > 0 then WrappingAdd(c, AsU16(v)) else c
  }

  /** Stepping by `v` and then by `-v` lands where it started: the
      wrap-around loses nothing. */
  lemma StepInverse(c: U16, v: I16)
    requires v != -0x8000
    ensures Step(Step(c, v), -v) == c
  {
    var d := Step(c, v);
    assert d == (c + v) % 0x1_0000;
    if c + v < 0 {
      assert d == c + v + 0x1_0000;
    } else if c + v >= 0x1_0000 {
      assert d == c + v - 0x1_0000;
    } else {
      assert d == c + v;
    }
  }

  datatype Velocity = Velocity(velX: I16, velY: I16)
  {
    /** `Velocity::is_same`: component-wise comparison. */
    function IsSame(other: Velocity): (r: bool)
      ensures r <==> this == other
    {
      velX == other.velX && velY == other.velY
    }
  }

  /** The velocity `Block::new` gives every block. */
  const Stopped := Velocity(0, 0)

  datatype Coordinates = Coordinates(x: U16, y: U16)
  {
    /** `Coordinates::is_same`: component-wise comparison. */
    function IsSame(other: Coordinates): (r: bool)
      ensures r <==> this == other
    {
      x == other.x && y == other.y
    }
  }

  /** A block is a value: Rust keeps each one inside its owner, never shared,
      so updating it in place and replacing it with an updated copy agree. */
  datatype Block = Block(coordinates: Coordinates, velocity: Velocity, symbol: char)
  {
    /** `Block::new`: a block at rest, which a move leaves where it is. */
    static function New(x: U16, y: U16, symbol: char): (b: Block)
      ensures b.coordinates == Coordinates(x, y) && b.velocity == Stopped && b.symbol == symbol
      ensures b.Moved() == b
    {
      Block(Coordinates(x, y), Stopped, symbol)
    }

    /** `Block::new_random`. The random generator is an oracle: `draw` is
        the pair the two `gen_range(low, high)` calls return, each in the
        half-open range `[low, high)`. */
    static function NewRandom(minX: U16, maxX: U16, minY: U16, maxY: U16, symbol: char,
                              draw: Coordinates): (b: Block)
      requires minX <= draw.x < maxX && minY <= draw.y < maxY
      ensures minX <= b.coordinates.x < maxX && minY <= b.coordinates.y < maxY
      ensures b.coordinates == draw && b.velocity == Stopped && b.symbol == symbol
    {
      New(draw.x, draw.y, symbol)
    }

    /** `Block::do_move`: each coordinate advances by its velocity
        component, modulo 2^16. */
    function Moved(): (b: Block)
      ensures b.velocity == velocity && b.symbol == symbol
      ensures velocity.velX != -0x8000 ==> b.coordinates.x == (coordinates.x + velocity.velX) % 0x1_0000
      ensures velocity.velY != -0x8000 ==> b.coordinates.y == (coordinates.y + velocity.velY) % 0x1_0000
      ensures velocity == Stopped ==> b == this
    {
      this.(coordinates := Coordinates(Step(coordinates.x, velocity.velX),
                                       Step(coordinates.y, velocity.velY)))
    }

    /** `Block::set_velocity`: only the velocity changes. */
    function WithVelocity(v: Velocity): (b: Block)
      ensures b.coordinates == coordinates && b.symbol == symbol && b.velocity == v
    {
      this.(velocity := v)
    }
  }

  /** Moving a block by its velocity and then by the opposite velocity
      returns it to its cell. */
  lemma MovedThenBack(b: Block)
    requires b.velocity.velX != -0x8000 && b.velocity.velY != -0x8000
    ensures b.Moved().WithVelocity(Velocity(-b.velocity.velX, -b.velocity.velY)).Moved().coordinates
            == b.coordinates
  {
    StepInverse(b.coordinates.x, b.velocity.velX);
    StepInverse(b.coordinates.y, b.velocity.velY);
  }
}
