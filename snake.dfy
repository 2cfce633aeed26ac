/** The snake: a head block followed by a tail of blocks. `Body` is its
    value, on which the rules of a tick are specified; the class `Snake`
    holds the head and the tail and updates them in place. */
module Snakes {
  import opened Blocks

  datatype Option<T> = None | Some(value: T)

  /** `tail.iter().position(|piece| piece.coordinates.is_same(c))`: the
      index of the first block on cell `c`, if any. */
  function Position(tail: seq<Block>, c: Coordinates): Option<nat>
  {
    if tail == [] then None
    else if tail[0].coordinates.IsSame(c) then Some(0)
    else match Position(tail[1..], c)
      case None => None
      case Some(i) => Some(i + 1)
  }

  /** The search finds the first block on `c`, and fails exactly when no
      block is on `c`. */
  lemma {:induction false} PositionFinds(tail: seq<Block>, c: Coordinates)
    ensures var r := Position(tail, c);
            && (r.Some? ==> r.value < |tail| && tail[r.value].coordinates == c)
            && (r.Some? ==> forall j :: 0 <= j < r.value ==> tail[j].coordinates != c)
            && (r.None? <==> forall j :: 0 <= j < |tail| ==> tail[j].coordinates != c)
    decreases |tail|
  {
    if tail != [] && !tail[0].coordinates.IsSame(c) {
      PositionFinds(tail[1..], c);
      assert forall j :: 1 <= j < |tail| ==> tail[j] == tail[1..][j - 1];
    }
  }

  /** The tail after one tick: every block moves by its own velocity and
      then takes the velocity the block ahead of it had before the tick
      (`lead` for the first tail block). */
  function MovedTail(lead: Velocity, tail: seq<Block>): (r: seq<Block>)
    ensures |r| == |tail|
    ensures forall k :: 0 <= k < |tail| ==>
              r[k] == tail[k].Moved().WithVelocity(if k == 0 then lead else tail[k - 1].velocity)
    decreases |tail|
  {
    if tail == [] then []
    else [tail[0].Moved().WithVelocity(lead)] + MovedTail(tail[0].velocity, tail[1..])
  }

  /** Every tail block set to velocity `v`. */
  function AllWithVelocity(tail: seq<Block>, v: Velocity): (r: seq<Block>)
  {
    seq(|tail|, k requires 0 <= k < |tail| => tail[k].WithVelocity(v))
  }

  /** The turn filter of `Snake::set_velocity` for a moving head: both
      components must change. */
  predicate IsTurn(current: Velocity, requested: Velocity)
  {
    current.velX != requested.velX && current.velY != requested.velY
  }

  /** `Snake::new(x, y)`: the head at (x, y) and three tail blocks to its
      left, all at rest; the new snake is not stuck. */
  function Start(x: U16, y: U16): (r: Body)
    requires x >= 3
    ensures r.head == Block(Coordinates(x, y), Stopped, 'O') && |r.tail| == 3
    ensures forall k :: 0 <= k < 3 ==> r.tail[k] == Block(Coordinates(x - 1 - k, y), Stopped, 'o')
    ensures !r.IntersectsTail(r.head.coordinates)
  {
    var b := Body(Block.New(x, y, 'O'), [Block.New(x - 1, y, 'o'), Block.New(x - 2, y, 'o'), Block.New(x - 3, y, 'o')]);
    IntersectsTailIff(b, b.head.coordinates);
    b
  }

  datatype Body = Body(head: Block, tail: seq<Block>)
  {
    /** `Snake::do_move`. */
    function Moved(): (r: Body)
      ensures r.head.coordinates == head.Moved().coordinates && r.head.velocity == head.velocity
      ensures |r.tail| == |tail|
      ensures forall k :: 0 <= k < |tail| ==> r.tail[k].coordinates == tail[k].Moved().coordinates
      ensures |tail| > 0 ==> r.tail[0].velocity == head.velocity
      ensures forall k :: 0 < k < |tail| ==> r.tail[k].velocity == tail[k - 1].velocity
    {
      var t := MovedTail(head.velocity, tail);
      forall k | 0 <= k < |tail|
        ensures t[k].coordinates == tail[k].Moved().coordinates
      {
        var lead := if k == 0 then head.velocity else tail[k - 1].velocity;
        assert t[k] == tail[k].Moved().WithVelocity(lead);
      }
      Body(head.Moved(), t)
    }

    /** `Snake::set_velocity`: a snake at rest takes `v` on every block;
        afterwards the head's velocity is compared with `v` again. */
    function Steered(v: Velocity): (r: Body)
      ensures r.head.coordinates == head.coordinates && |r.tail| == |tail|
      ensures forall k :: 0 <= k < |tail| ==> r.tail[k].coordinates == tail[k].coordinates
      ensures head.velocity == Stopped ==>
                r.head.velocity == v && forall k :: 0 <= k < |tail| ==> r.tail[k].velocity == v
      ensures head.velocity != Stopped ==>
                r.tail == tail && r.head.velocity == (if IsTurn(head.velocity, v) then v else head.velocity)
    {
      var b := if head.velocity.velX == 0 && head.velocity.velY == 0
               then Body(head.WithVelocity(v), AllWithVelocity(tail, v))
               else this;
      if IsTurn(b.head.velocity, v) then b.(head := b.head.WithVelocity(v)) else b
    }

    /** `Snake::grow`: a block at rest on the last tail block's cell. The
        Rust code unwraps the last block, so the tail must not be empty. */
    function Grown(): (r: Body)
      requires |tail| > 0
      ensures r.head == head && |r.tail| == |tail| + 1 && r.tail[..|tail|] == tail
      ensures r.tail[|tail|].coordinates == tail[|tail| - 1].coordinates
      ensures r.tail[|tail|].velocity == Stopped
    {
      var last := tail[|tail| - 1].coordinates;
      Body(head, tail + [Block.New(last.x, last.y, 'o')])
    }

    /** `n` successive calls of `Snake::grow`. */
    function GrownBy(n: nat): (r: Body)
      requires |tail| > 0
      ensures r.head == head && |r.tail| == |tail| + n
      decreases n
    {
      if n == 0 then this else Grown().GrownBy(n - 1)
    }

    /** The block ahead of tail block `k`. */
    function Ahead(k: nat): Block
      requires k < |tail|
    {
      if k == 0 then head else tail[k - 1]
    }

    /** The body follows its head: every tail block's own velocity carries
        it onto the cell of the block ahead of it. */
    ghost predicate Follows()
    {
      forall k :: 0 <= k < |tail| ==> FollowsAt(k)
    }

    /** Tail block `k`'s own step lands on the cell of the block ahead. */
    ghost predicate FollowsAt(k: nat)
      requires k < |tail|
    {
      tail[k].Moved().coordinates == Ahead(k).coordinates
    }

    /** `Snake::does_intersect_tail`: the search for a tail block on cell
        `c` succeeds exactly when some tail block is on `c`. */
    predicate IntersectsTail(c: Coordinates)
    {
      Position(tail, c).Some?
    }
  }

  /** Growing `n` times keeps the old tail as a prefix and appends `n`
      blocks at rest on the old last block's cell. */
  lemma {:induction false} GrownByShape(b: Body, n: nat)
    requires |b.tail| > 0
    ensures b.GrownBy(n).tail[..|b.tail|] == b.tail
    ensures forall k :: |b.tail| <= k < |b.GrownBy(n).tail| ==>
              b.GrownBy(n).tail[k].coordinates == b.tail[|b.tail| - 1].coordinates
              && b.GrownBy(n).tail[k].velocity == Stopped
    decreases n
  {
    if n > 0 {
      var g := b.Grown();
      GrownByShape(g, n - 1);
      var r := b.GrownBy(n);
      assert r == g.GrownBy(n - 1);
      assert r.tail[..|b.tail|] == r.tail[..|g.tail|][..|b.tail|];
    }
  }

  /** `does_intersect_tail` holds exactly when some tail block is on `c`. */
  lemma IntersectsTailIff(b: Body, c: Coordinates)
    ensures b.IntersectsTail(c) <==> exists k :: 0 <= k < |b.tail| && b.tail[k].coordinates == c
  {
    PositionFinds(b.tail, c);
  }

  /** A tick keeps a following body following, and in it every tail block
      lands on the cell the block ahead of it has just left: the body
      traces the head's path without cutting corners. */
  lemma {:induction false} MovedKeepsFollows(b: Body)
    requires b.Follows()
    ensures forall k :: 0 <= k < |b.tail| ==> b.Moved().tail[k].coordinates == b.Ahead(k).coordinates
    ensures b.Moved().Follows()
  {
    var m := b.Moved();
    forall k | 0 <= k < |m.tail|
      ensures m.tail[k].coordinates == b.Ahead(k).coordinates && m.FollowsAt(k)
    {
      assert b.FollowsAt(k);
      var ahead := b.Ahead(k);
      assert m.tail[k] == b.tail[k].Moved().WithVelocity(ahead.velocity);
      assert m.tail[k].coordinates == ahead.coordinates;
      assert m.Ahead(k).coordinates == ahead.Moved().coordinates;
    }
  }

  /** Growing keeps a following body following: the new block is at rest
      on the cell of the block ahead of it. */
  lemma {:induction false} GrownKeepsFollows(b: Body)
    requires |b.tail| > 0 && b.Follows()
    ensures b.Grown().Follows()
  {
    var g := b.Grown();
    forall k | 0 <= k < |g.tail|
      ensures g.FollowsAt(k)
    {
      if k < |b.tail| {
        assert b.FollowsAt(k);
        assert g.tail[k] == b.tail[k] && g.Ahead(k) == b.Ahead(k);
      }
    }
  }

  /** Growing `n` times keeps a following body following. */
  lemma {:induction false} GrownByKeepsFollows(b: Body, n: nat)
    requires |b.tail| > 0 && b.Follows()
    ensures b.GrownBy(n).Follows()
    decreases n
  {
    if n > 0 {
      GrownKeepsFollows(b);
      GrownByKeepsFollows(b.Grown(), n - 1);
    }
  }

  /** Steering a moving snake changes only the head's velocity, which the
      following relation does not look at. */
  lemma {:induction false} SteeredKeepsFollows(b: Body, v: Velocity)
    requires b.head.velocity != Stopped && b.Follows()
    ensures b.Steered(v).Follows()
  {
    var s := b.Steered(v);
    forall k | 0 <= k < |s.tail|
      ensures s.FollowsAt(k)
    {
      assert b.FollowsAt(k);
      assert s.tail[k] == b.tail[k] && s.Ahead(k).coordinates == b.Ahead(k).coordinates;
    }
  }

  /** The snake `Snake::new` builds starts following once it is first
      steered to the right, towards its head. */
  lemma StartFollowsAfterRightTurn(x: U16, y: U16)
    requires 3 <= x
    ensures Start(x, y).Steered(Velocity(1, 0)).Follows()
  {
    var s := Start(x, y).Steered(Velocity(1, 0));
    forall k | 0 <= k < |s.tail|
      ensures s.FollowsAt(k)
    {
      assert s.tail[k].coordinates == Coordinates(x - 1 - k, y);
    }
  }

  /** A following body never moves onto a cell that neither its head nor
      its tail occupied before the tick. */
  lemma {:induction false} FollowsKeepsCellClear(b: Body, c: Coordinates)
    requires b.Follows() && b.head.coordinates != c && !b.IntersectsTail(c)
    ensures !b.Moved().IntersectsTail(c)
  {
    MovedKeepsFollows(b);
    var m := b.Moved();
    IntersectsTailIff(b, c);
    forall k | 0 <= k < |m.tail|
      ensures m.tail[k].coordinates != c
    {
      assert m.tail[k].coordinates == b.Ahead(k).coordinates;
      if k > 0 {
        assert b.tail[k - 1].coordinates != c;
      }
    }
    IntersectsTailIff(m, c);
  }

  /** A moving head ignores a request to repeat its velocity, to reverse it
      along its axis, or to stop. */
  lemma ReversalIgnored(b: Body, v: Velocity)
    requires b.head.velocity != Stopped
    requires b.head.velocity.velX == 0 || b.head.velocity.velY == 0
    requires b.head.velocity.velX != -0x8000 && b.head.velocity.velY != -0x8000
    requires v == b.head.velocity || v == Stopped
             || v == Velocity(-b.head.velocity.velX, -b.head.velocity.velY)
    ensures b.Steered(v) == b
  {
  }

  /** The turn filter compares with the head's buffered velocity, not with
      the direction of the last tick: two quick turns before a tick reverse
      a head moving right. */
  lemma QuickTurnsReverse(b: Body)
    requires b.head.velocity == Velocity(1, 0)
    ensures b.Steered(Velocity(0, 1)).Steered(Velocity(-1, 0)).head.velocity == Velocity(-1, 0)
    ensures b.Steered(Velocity(0, 1)).Steered(Velocity(-1, 0)).tail == b.tail
  {
  }

  /** `struct Snake`. */
  class Snake {
    var head: Block
    var tail: seq<Block>

    /** The snake's current value. */
    function View(): Body
      reads this
    {
      Body(head, tail)
    }

    /** `Snake::new`. The `u16` subtraction `x - i` needs `x >= 3`. */
    constructor (x: U16, y: U16)
      requires x >= 3
      ensures View() == Start(x, y)
    {
      head := Block.New(x, y, 'O');
      var pieces: seq<Block> := [];
      for i := 1 to 4
        invariant |pieces| == i - 1
        invariant forall k :: 0 <= k < i - 1 ==> pieces[k] == Block.New(x - 1 - k, y, 'o')
      {
        pieces := pieces + [Block.New(x - i, y, 'o')];
      }
      tail := pieces;
    }

    /** `Snake::grow`. */
    method Grow()
      requires |tail| > 0
      modifies this
      ensures View() == old(View()).Grown()
    {
      var tailCoords := tail[|tail| - 1].coordinates;
      tail := tail + [Block.New(tailCoords.x, tailCoords.y, 'o')];
    }

    /** `Snake::is_stuck`: the head is on a tail block; the head is never
        compared with itself. */
    function IsStuck(): (r: bool)
      reads this
      ensures r <==> exists k :: 0 <= k < |tail| && tail[k].coordinates == head.coordinates
    {
      DoesIntersectTail(head.coordinates)
    }

    /** `Snake::does_intersect_tail`. */
    function DoesIntersectTail(coordinates: Coordinates): (r: bool)
      reads this
      ensures r <==> exists k :: 0 <= k < |tail| && tail[k].coordinates == coordinates
    {
      IntersectsTailIff(View(), coordinates);
      View().IntersectsTail(coordinates)
    }

    /** `Snake::do_move`: move the head, then walk the tail carrying the
        velocity of the block ahead; a block swaps velocities with the
        carried one only when they differ, which has the effect of shifting
        every velocity one place down the tail. */
    method DoMove()
      modifies this
      ensures View() == old(View()).Moved()
    {
      ghost var moved := MovedTail(head.velocity, tail);
      head := head.Moved();
      var previousVelocity := head.velocity;
      var i := 0;
      while i < |tail|
        invariant 0 <= i <= |tail| == |moved| == |old(tail)|
        invariant head == old(head).Moved()
        invariant previousVelocity == if i == 0 then old(head).velocity else old(tail)[i - 1].velocity
        invariant tail[..i] == moved[..i]
        invariant tail[i..] == old(tail)[i..]
      {
        var piece := tail[i].Moved();
        if !previousVelocity.IsSame(piece.velocity) {
          var tempVelocity := piece.velocity;
          piece := piece.WithVelocity(previousVelocity);
          previousVelocity := tempVelocity;
        }
        assert tail[i] == old(tail)[i] by { assert tail[i..][0] == old(tail)[i..][0]; }
        assert piece == moved[i];
        tail := tail[i := piece];
        i := i + 1;
      }
      assert tail == tail[..i];
    }

    /** `Snake::set_velocity`. */
    method SetVelocity(velocity: Velocity)
      modifies this
      ensures View() == old(View()).Steered(velocity)
    {
      ghost var b := old(View());
      if head.velocity.velX == 0 && head.velocity.velY == 0 {
        head := head.WithVelocity(velocity);
        var i := 0;
        while i < |tail|
          invariant 0 <= i <= |tail| == |old(tail)|
          invariant head == old(head).WithVelocity(velocity)
          invariant forall k :: 0 <= k < i ==> tail[k] == old(tail)[k].WithVelocity(velocity)
          invariant forall k :: i <= k < |tail| ==> tail[k] == old(tail)[k]
        {
          tail := tail[i := tail[i].WithVelocity(velocity)];
          i := i + 1;
        }
        assert tail == AllWithVelocity(old(tail), velocity);
        b := Body(old(head).WithVelocity(velocity), AllWithVelocity(old(tail), velocity));
      }
      assert View() == b;
      if head.velocity.velX != velocity.velX && head.velocity.velY != velocity.velY {
        head := head.WithVelocity(velocity);
      }
    }
  }
}
