/** The game session: one screen, one mouse, one snake, the score and the
    pause flag, advanced one frame at a time by the caller. A frame is
    specified on values (`Frame`, built from `Place` and `Eat`); the class
    `Game` updates its fields in place and is proved to compute it. */
module Games {
  import opened Blocks
  import opened Screens
  import opened Snakes

  /** `SCORE_PER_MICE`. */
  const ScorePerMice: nat := 100

  /** `struct Score`: the points and the cell the score is printed at. The
      `u32` counter is unbounded here. */
  datatype Score = Score(score: nat, coordinates: Coordinates)
  {
    /** `Score::new`: no points yet, printed at the given cell. */
    static function New(positionX: U16, positionY: U16): (r: Score)
      ensures r.score == 0 && r.coordinates == Coordinates(positionX, positionY)
    {
      Score(0, Coordinates(positionX, positionY))
    }

    /** `Score::new_in_screen`: centred above the playing box, on the row
        of its top frame line. */
    static function NewInScreen(screen: Screen): (r: Score)
      requires screen.minY >= 1
      ensures r.score == 0
      ensures r.coordinates.x == screen.limitX / 2 && r.coordinates.y + 1 == screen.minY
    {
      New(screen.limitX / 2, screen.minY - 1)
    }

    /** `Score::inc`: one mouse's worth of points; the score stays where
        it is printed. */
    function Inc(): (r: Score)
      ensures r.score == score + ScorePerMice && r.coordinates == coordinates
    {
      this.(score := score + ScorePerMice)
    }
  }

  /** `struct Mice`: the food, a single block. */
  datatype Mice = Mice(block: Block)
  {
    /** `Mice::new`, with the random generator's `draw` as an oracle. */
    static function New(minX: U16, maxX: U16, minY: U16, maxY: U16, draw: Coordinates): (r: Mice)
      requires minX <= draw.x < maxX && minY <= draw.y < maxY
      ensures r == MouseAt(draw)
      ensures minX <= r.block.coordinates.x < maxX && minY <= r.block.coordinates.y < maxY
    {
      Mice(Block.NewRandom(minX, maxX, minY, maxY, 'O', draw))
    }

    /** `Mice::new_in_screen`. */
    static function NewInScreen(screen: Screen, draw: Coordinates): (r: Mice)
      requires screen.InSpawnBox(draw)
      ensures r == MouseAt(draw) && screen.IsInbound(r.block.coordinates)
    {
      New(screen.minX, screen.maxX, screen.minY, screen.maxY, draw)
    }
  }

  /** The mouse `Mice::new_in_screen` makes from the draw `c`. */
  function MouseAt(c: Coordinates): Mice
  {
    Mice(Block(c, Stopped, 'O'))
  }

  /** Everything a `Game` holds, as one value. */
  datatype Snapshot = Snapshot(screen: Screen, mice: Mice, body: Body, score: Score, isPaused: bool)
  {
    /** The game's invariant: the screen is the one `Screen::new` built, the
        tail never shrinks below the three blocks `Snake::new` gives it, and
        every block beyond those three was paid for by one mouse. */
    ghost predicate Valid()
    {
      && screen.limitX >= 9 && screen.limitY >= 4
      && screen == Screen.New(screen.limitX, screen.limitY)
      && |body.tail| >= 3
      && score.score == ScorePerMice * (|body.tail| - 3)
    }

    /** The head is on the mouse: the condition of the eating loop. */
    predicate MouseOnHead()
    {
      body.head.coordinates.IsSame(mice.block.coordinates)
    }

    /** The mouse is on no block of the snake. */
    predicate MouseClear()
    {
      !MouseOnHead() && !body.IntersectsTail(mice.block.coordinates)
    }
  }

  /** Every draw is a cell `gen_range` can return for `screen`. */
  predicate DrawsFit(screen: Screen, draws: seq<Coordinates>)
  {
    forall i :: 0 <= i < |draws| ==> screen.InSpawnBox(draws[i])
  }

  /** The result of running (part of) a frame: the new game value, the
      number of draws consumed so far, and whether the frame ran to its end
      (false when the draws ran out while `calc_new_frame` would draw again). */
  datatype Outcome = Outcome(state: Snapshot, used: nat, completed: bool)

  /** The respawn loop of `Game::calc_new_frame`, entered with the draws
      `draws[next..]` still unused: while the mouse is on a tail block,
      `make_mice` again. */
  function Respawn(s: Snapshot, draws: seq<Coordinates>, next: nat): (o: Outcome)
    requires next <= |draws| && DrawsFit(s.screen, draws)
    ensures next <= o.used <= |draws| && (!o.completed ==> o.used == |draws|)
    ensures o.state == s.(mice := o.state.mice)
    ensures o.completed ==> !o.state.body.IntersectsTail(o.state.mice.block.coordinates)
    ensures o.used == next ==> o.state.mice == s.mice
    ensures o.used > next ==> o.state.mice == MouseAt(draws[o.used - 1])
    ensures o.used > next ==> s.body.IntersectsTail(s.mice.block.coordinates)
    ensures forall i :: next <= i < o.used - 1 ==> s.body.IntersectsTail(draws[i])
    decreases |draws| - next
  {
    if !s.body.IntersectsTail(s.mice.block.coordinates) then Outcome(s, next, true)
    else if next == |draws| then Outcome(s, next, false)
    else Respawn(s.(mice := Mice.NewInScreen(s.screen, draws[next])), draws, next + 1)
  }

  /** `make_mice` followed by the respawn loop: the new mouse is the first
      draw, from `draws[from..]`, that lands on no tail block. The head is
      not checked. */
  function Place(s: Snapshot, draws: seq<Coordinates>, from: nat): (o: Outcome)
    requires from <= |draws| && DrawsFit(s.screen, draws)
    ensures from <= o.used <= |draws| && (!o.completed ==> o.used == |draws|)
    ensures o.state == s.(mice := o.state.mice)
    ensures o.completed ==> o.used > from && !o.state.body.IntersectsTail(o.state.mice.block.coordinates)
    ensures o.used == from ==> o.state.mice == s.mice
    ensures o.used > from ==> o.state.mice == MouseAt(draws[o.used - 1])
    ensures forall i :: from <= i < o.used - 1 ==> s.body.IntersectsTail(draws[i])
  {
    if from == |draws| then Outcome(s, from, false)
    else Respawn(s.(mice := Mice.NewInScreen(s.screen, draws[from])), draws, from + 1)
  }

  /** The eating loop of `Game::calc_new_frame`: while the head is on the
      mouse, `Score::inc`, `Snake::grow` and place a new mouse. */
  function Eat(s: Snapshot, draws: seq<Coordinates>, from: nat): (o: Outcome)
    requires from <= |draws| && DrawsFit(s.screen, draws) && |s.body.tail| > 0
    ensures from <= o.used <= |draws| && (!o.completed ==> o.used == |draws|)
    decreases |draws| - from
  {
    if !s.MouseOnHead() then Outcome(s, from, true)
    else
      var p := Place(s.(score := s.score.Inc(), body := s.body.Grown()), draws, from);
      if !p.completed then p else Eat(p.state, draws, p.used)
  }

  /** `Game::calc_new_frame` on values: nothing while paused, otherwise
      `Snake::do_move` and the eating loop. */
  function Frame(s: Snapshot, draws: seq<Coordinates>): (o: Outcome)
    requires DrawsFit(s.screen, draws) && |s.body.tail| > 0
    ensures o.used <= |draws| && (!o.completed ==> o.used == |draws|)
  {
    if s.isPaused then Outcome(s, 0, true)
    else Eat(s.(body := s.body.Moved()), draws, 0)
  }

  /** The eating loop changes the snake only by growing it, and grows it
      exactly when the head is on the mouse. */
  lemma {:induction false} EatGrows(s: Snapshot, draws: seq<Coordinates>, from: nat)
    requires from <= |draws| && DrawsFit(s.screen, draws) && |s.body.tail| > 0
    ensures var o := Eat(s, draws, from);
            var n := |o.state.body.tail| - |s.body.tail|;
            && n >= 0
            && o.state.body == s.body.GrownBy(n)
            && (n == 0 <==> !s.MouseOnHead())
    decreases |draws| - from
  {
    if s.MouseOnHead() {
      var g := s.(score := s.score.Inc(), body := s.body.Grown());
      var p := Place(g, draws, from);
      assert p.state.body == g.body;
      if p.completed {
        EatGrows(p.state, draws, p.used);
        var o := Eat(p.state, draws, p.used);
        assert Eat(s, draws, from) == o;
        var m := |o.state.body.tail| - |g.body.tail|;
        assert o.state.body == g.body.GrownBy(m);
        assert s.body.GrownBy(m + 1) == g.body.GrownBy(m);
        assert |o.state.body.tail| - |s.body.tail| == m + 1;
      } else {
        assert Eat(s, draws, from).state.body == g.body;
        assert s.body.GrownBy(1) == g.body.GrownBy(0) == g.body;
      }
    } else {
      assert Eat(s, draws, from).state.body == s.body;
      assert s.body.GrownBy(0) == s.body;
    }
  }

  /** The eating loop adds exactly `SCORE_PER_MICE` points per block grown
      and leaves the screen, the pause flag and the score's position
      alone. */
  lemma {:induction false} EatScores(s: Snapshot, draws: seq<Coordinates>, from: nat)
    requires from <= |draws| && DrawsFit(s.screen, draws) && |s.body.tail| > 0
    ensures var o := Eat(s, draws, from);
            var n := |o.state.body.tail| - |s.body.tail|;
            && n >= 0
            && o.state.score == s.score.(score := s.score.score + ScorePerMice * n)
            && o.state.screen == s.screen && o.state.isPaused == s.isPaused
    decreases |draws| - from
  {
    EatGrows(s, draws, from);
    if s.MouseOnHead() {
      var g := s.(score := s.score.Inc(), body := s.body.Grown());
      var p := Place(g, draws, from);
      assert p.state.body == g.body && p.state.score == g.score && p.state.screen == s.screen;
      if p.completed {
        EatScores(p.state, draws, p.used);
        var o := Eat(p.state, draws, p.used);
        assert Eat(s, draws, from) == o;
        var m := |o.state.body.tail| - |g.body.tail|;
        assert ScorePerMice * (m + 1) == ScorePerMice * m + ScorePerMice;
      }
    }
  }

  /** Where the eating loop leaves the mouse: untouched when it drew
      nothing, otherwise the last draw; off the head when the loop ran to
      its end, and then also off the tail if at least one mouse was eaten. */
  lemma {:induction false} EatPlacesMouse(s: Snapshot, draws: seq<Coordinates>, from: nat)
    requires from <= |draws| && DrawsFit(s.screen, draws) && |s.body.tail| > 0
    ensures var o := Eat(s, draws, from);
            && (o.used == from ==> o.state.mice == s.mice)
            && (o.used > from ==> o.state.mice == MouseAt(draws[o.used - 1]))
            && (o.completed ==> !o.state.MouseOnHead())
            && (o.completed && s.MouseOnHead() ==> !o.state.body.IntersectsTail(o.state.mice.block.coordinates))
    decreases |draws| - from
  {
    if s.MouseOnHead() {
      var p := Place(s.(score := s.score.Inc(), body := s.body.Grown()), draws, from);
      if p.completed {
        EatPlacesMouse(p.state, draws, p.used);
      }
    }
  }

  /** A frame while paused changes nothing and draws nothing. Otherwise
      the snake takes one step and then grows by one block per mouse eaten,
      each worth `SCORE_PER_MICE` points; the screen, the pause flag and
      the score's position never change. */
  lemma FrameAdvances(s: Snapshot, draws: seq<Coordinates>)
    requires DrawsFit(s.screen, draws) && |s.body.tail| > 0
    ensures var o := Frame(s, draws);
            var n := |o.state.body.tail| - |s.body.tail|;
            && (s.isPaused ==> o == Outcome(s, 0, true))
            && n >= 0
            && (!s.isPaused ==> o.state.body == s.body.Moved().GrownBy(n))
            && o.state.score == s.score.(score := s.score.score + ScorePerMice * n)
            && o.state.screen == s.screen && o.state.isPaused == s.isPaused
  {
    if !s.isPaused {
      var m := s.(body := s.body.Moved());
      EatGrows(m, draws, 0);
      EatScores(m, draws, 0);
    }
  }

  /** Where a frame leaves the mouse: untouched when nothing was drawn,
      otherwise on the last draw. A finished frame leaves it off the head,
      and off the tail whenever the snake grew. */
  lemma FramePlacesMouse(s: Snapshot, draws: seq<Coordinates>)
    requires DrawsFit(s.screen, draws) && |s.body.tail| > 0
    ensures var o := Frame(s, draws);
            && (o.used == 0 ==> o.state.mice == s.mice)
            && (o.used > 0 ==> o.state.mice == MouseAt(draws[o.used - 1]))
            && (o.completed && !s.isPaused ==> !o.state.MouseOnHead())
            && (o.completed && |o.state.body.tail| > |s.body.tail| ==>
                  !o.state.body.IntersectsTail(o.state.mice.block.coordinates))
  {
    if !s.isPaused {
      var m := s.(body := s.body.Moved());
      EatGrows(m, draws, 0);
      EatPlacesMouse(m, draws, 0);
    }
  }

  /** The game's invariant survives every frame. */
  lemma FrameKeepsValid(s: Snapshot, draws: seq<Coordinates>)
    requires s.Valid() && DrawsFit(s.screen, draws)
    ensures Frame(s, draws).state.Valid()
  {
    FrameAdvances(s, draws);
    var o := Frame(s, draws);
    var n := |o.state.body.tail| - |s.body.tail|;
    assert ScorePerMice * (|s.body.tail| - 3) + ScorePerMice * n == ScorePerMice * (|o.state.body.tail| - 3);
  }

  /** A snake that follows its head still does after a frame. */
  lemma FrameKeepsFollows(s: Snapshot, draws: seq<Coordinates>)
    requires DrawsFit(s.screen, draws) && |s.body.tail| > 0 && s.body.Follows()
    ensures Frame(s, draws).state.body.Follows()
  {
    FrameAdvances(s, draws);
    if !s.isPaused {
      MovedKeepsFollows(s.body);
      var o := Frame(s, draws);
      GrownByKeepsFollows(s.body.Moved(), |o.state.body.tail| - |s.body.tail|);
    }
  }

  /** For a snake that follows its head, a mouse on no block of the snake
      stays so through a finished frame: the tick moves no tail block onto
      it, and a mouse the head reaches is eaten and replaced. */
  lemma {:induction false} FrameKeepsMouseClear(s: Snapshot, draws: seq<Coordinates>)
    requires DrawsFit(s.screen, draws) && |s.body.tail| > 0
    requires s.body.Follows() && s.MouseClear()
    ensures Frame(s, draws).completed ==> Frame(s, draws).state.MouseClear()
  {
    if !s.isPaused {
      var m := s.(body := s.body.Moved());
      FollowsKeepsCellClear(s.body, s.mice.block.coordinates);
      EatGrows(m, draws, 0);
      EatPlacesMouse(m, draws, 0);
    }
  }

  /** `Snake::new_in_screen` halves the playing box's extent without adding
      its corner, so on a screen fewer than 7 rows high the head of a new
      snake starts above the playing box; from 7 rows on it starts inside. */
  lemma StartInboundIff(sizeX: U16, sizeY: U16)
    requires sizeX >= 9 && sizeY >= 4
    ensures Screen.New(sizeX, sizeY).IsInbound(Start((sizeX - 3) / 2, (sizeY - 3) / 2).head.coordinates)
            <==> sizeY >= 7
  {
  }

  /** Tail blocks wrap while the game goes on: `Game::new(9, 10)` puts the
      head at (3, 3) and the tail at x = 2, 1, 0; steered left and moved
      once, the head is at (2, 3), in bounds and not stuck, while the last
      tail block has wrapped from x = 0 to x = 65535. */
  lemma TailWrapsInPlay()
    ensures var b := Start((9 - 3) / 2, (10 - 3) / 2).Steered(Velocity(-1, 0)).Moved();
            && b.head.coordinates == Coordinates(2, 3)
            && Screen.New(9, 10).IsInbound(b.head.coordinates)
            && !b.IntersectsTail(b.head.coordinates)
            && b.tail[2].coordinates == Coordinates(0xFFFF, 3)
  {
    var b := Start(3, 3).Steered(Velocity(-1, 0)).Moved();
    IntersectsTailIff(b, b.head.coordinates);
  }

  /** `struct Game`. */
  class Game {
    var screen: Screen
    var mice: Mice
    var snake: Snake
    var score: Score
    var isPaused: bool

    /** The game's current value. */
    function Current(): Snapshot
      reads this, snake
    {
      Snapshot(screen, mice, snake.View(), score, isPaused)
    }

    /** The game's invariant, on its current value. */
    ghost predicate Valid()
      reads this, snake
    {
      Current().Valid()
    }

    /** `Game::new`. The snake's head starts at half the playing box's
        width and height counted from 0, not from the box's corner, which
        needs `sizeX >= 9` for `Snake::new`, and `sizeY >= 4` so that the
        range `gen_range` draws the first mouse's row from is not empty;
        `mouse` is the first random draw. */
    constructor (sizeX: U16, sizeY: U16, mouse: Coordinates)
      requires sizeX >= 9 && sizeY >= 4
      requires Screen.New(sizeX, sizeY).InSpawnBox(mouse)
      ensures Valid() && fresh(snake)
      ensures Current() == Snapshot(Screen.New(sizeX, sizeY), MouseAt(mouse),
                                    Start((sizeX - 3) / 2, (sizeY - 3) / 2),
                                    Score(0, Coordinates(sizeX / 2, 1)), false)
    {
      var s := Screen.New(sizeX, sizeY);
      screen := s;
      mice := Mice.NewInScreen(s, mouse);
      snake := new Snake((s.maxX - s.minX) / 2, (s.maxY - s.minY) / 2);
      score := Score.NewInScreen(s);
      isPaused := false;
    }

    /** `Game::make_mice`, with `draw` the random generator's answer. */
    method MakeMice(draw: Coordinates)
      requires screen.InSpawnBox(draw)
      modifies this`mice
      ensures mice == MouseAt(draw)
    {
      mice := Mice.NewInScreen(screen, draw);
    }

    /** `Game::calc_new_frame`. The random generator is an oracle: `draws`
        are the positions it returns, in order, one per `make_mice`. The
        Rust code draws until a mouse lands off the tail; here the frame stops
        early, with `completed` false, if the draws run out first. `used`
        is the number of draws consumed. */
    method CalcNewFrame(draws: seq<Coordinates>) returns (used: nat, completed: bool)
      requires Valid() && DrawsFit(screen, draws)
      modifies this`score, this`mice, snake
      ensures Valid()
      ensures Outcome(Current(), used, completed) == Frame(old(Current()), draws)
    {
      if isPaused {
        return 0, true;
      }
      snake.DoMove();
      used, completed := EatMice(draws);
      FrameKeepsValid(old(Current()), draws);
    }

    /** The eating loop of `Game::calc_new_frame`. */
    method EatMice(draws: seq<Coordinates>) returns (used: nat, completed: bool)
      requires DrawsFit(screen, draws) && |snake.tail| > 0
      modifies this`score, this`mice, snake
      ensures Outcome(Current(), used, completed) == Eat(old(Current()), draws, 0)
    {
      used, completed := 0, true;
      while completed && snake.head.coordinates.IsSame(mice.block.coordinates)
        invariant DrawsFit(screen, draws) && |snake.tail| > 0 && used <= |draws|
        invariant Eat(old(Current()), draws, 0)
                  == if completed then Eat(Current(), draws, used) else Outcome(Current(), used, false)
        decreases |draws| - used + (if completed then 1 else 0)
      {
        used, completed := EatOne(draws, used);
      }
    }

    /** One pass of the eating loop: `Score::inc`, `Snake::grow`, then
        `make_mice` and the respawn loop. */
    method EatOne(draws: seq<Coordinates>, from: nat) returns (used: nat, completed: bool)
      requires from <= |draws| && DrawsFit(screen, draws) && |snake.tail| > 0
      modifies this`score, this`mice, snake
      ensures Outcome(Current(), used, completed)
              == Place(old(Current()).(score := old(score).Inc(), body := old(snake.View()).Grown()), draws, from)
    {
      score := score.Inc();
      snake.Grow();
      used, completed := PlaceMice(draws, from);
    }

    /** `make_mice` followed by the respawn loop: draw from `draws[from..]`
        until the mouse is off every tail block. */
    method PlaceMice(draws: seq<Coordinates>, from: nat) returns (used: nat, completed: bool)
      requires from <= |draws| && DrawsFit(screen, draws)
      modifies this`mice
      ensures Outcome(Current(), used, completed) == Place(old(Current()), draws, from)
    {
      if from == |draws| {
        return from, false;
      }
      MakeMice(draws[from]);
      used, completed := from + 1, true;
      while completed && snake.DoesIntersectTail(mice.block.coordinates)
        invariant from < used <= |draws|
        invariant Place(old(Current()), draws, from)
                  == if completed then Respawn(Current(), draws, used) else Outcome(Current(), used, false)
        decreases |draws| - used + (if completed then 1 else 0)
      {
        if used == |draws| {
          completed := false;
        } else {
          MakeMice(draws[used]);
          used := used + 1;
        }
      }
    }

    /** `Game::set_snake_velocity`: ignored while paused. */
    method SetSnakeVelocity(velocity: Velocity)
      requires Valid()
      modifies snake
      ensures Valid()
      ensures Current() == if old(isPaused) then old(Current())
                           else old(Current()).(body := old(snake.View()).Steered(velocity))
    {
      if isPaused {
        return;
      }
      snake.SetVelocity(velocity);
    }

    /** `Game::switch_pause`: flips the flag and nothing else. */
    method SwitchPause()
      requires Valid()
      modifies this`isPaused
      ensures Valid()
      ensures Current() == old(Current()).(isPaused := !old(isPaused))
    {
      isPaused := !isPaused;
    }

    /** `Game::is_game_over`: the head has left the playing box or lies on a
        tail block. */
    function IsGameOver(): (r: bool)
      reads this, snake
      ensures r <==> !screen.IsInbound(snake.head.coordinates)
                     || exists k :: 0 <= k < |snake.tail| && snake.tail[k].coordinates == snake.head.coordinates
    {
      !screen.IsInbound(snake.head.coordinates) || snake.IsStuck()
    }
  }
}
