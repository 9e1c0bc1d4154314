// The snake game's own code (apps/user/snake/snake.c): coordinate arrays shifted
// in place and a board painted cell by cell, refining the state machine.

module Snake {
  import opened SnakeRules

  // place_food keeps drawing until a draw is free.
  ghost predicate HasFree(draws: seq<Cell>, b: seq<Cell>) {
    exists i | 0 <= i < |draws| :: draws[i] !in b
  }

  function FirstFree(draws: seq<Cell>, b: seq<Cell>): Cell
    decreases |draws|
  {
    if draws == [] then Cell(0, 0) else if draws[0] !in b then draws[0] else FirstFree(draws[1..], b)
  }

  lemma {:induction false} FirstFreeIsFree(f: Field, draws: seq<Cell>, b: seq<Cell>)
    requires Inside(f, draws) && HasFree(draws, b)
    ensures In(f, FirstFree(draws, b)) && FirstFree(draws, b) !in b
    decreases |draws|
  {
    if draws[0] in b {
      var i :| 0 <= i < |draws| && draws[i] !in b;
      assert draws[1..][i - 1] !in b;
      assert forall k | 0 <= k < |draws| - 1 :: draws[1..][k] == draws[k + 1];
      FirstFreeIsFree(f, draws[1..], b);
    } else {
      assert In(f, draws[0]);
    }
  }

  // A coordinate pair a cell.
  function Zip(xs: seq<int>, ys: seq<int>): seq<Cell>
    requires |xs| == |ys|
  {
    seq(|xs|, i requires 0 <= i < |xs| => Cell(xs[i], ys[i]))
  }

  lemma HeadTail(xs: seq<int>, ys: seq<int>)
    requires |xs| == |ys| > 0
    ensures var b, n := Zip(xs, ys), |xs| - 1;
      |b| == |xs| && b[0] == Cell(xs[0], ys[0]) && b[n] == Cell(xs[n], ys[n])
  {}

  lemma ZipSize(xs: seq<int>, ys: seq<int>)
    requires |xs| == |ys|
    ensures |Zip(xs, ys)| == |xs|
  {}

  lemma ZipShift(xs: seq<int>, ys: seq<int>, hx: int, hy: int, n: nat)
    requires 0 < n <= |xs| + 1 && |xs| == |ys|
    ensures |Zip(xs, ys)| == |xs|
    ensures Zip([hx] + xs[..n - 1], [hy] + ys[..n - 1]) == [Cell(hx, hy)] + Zip(xs, ys)[..n - 1]
  {}

  function Repainted(screen: map<Cell, Colour>, b: seq<Cell>, tail: Cell, grow: bool): map<Cell, Colour>
    requires b != []
  {
    var s0 := if grow then screen else screen[tail := Colour.Back];
    var s1 := if |b| > 1 then s0[b[1] := Colour.Body] else s0;
    s1[b[0] := Head]
  }

  lemma StepIs(g: Game, pick: Cell)
    requires 0 < |g.body| <= MAX_LEN
    ensures var b := Moved(g);
      var s := Repainted(g.screen, b, g.body[|g.body| - 1], Eats(g));
      Step(g, pick) == if Eats(g) then Game(b, g.pend, g.pend, pick, g.score + 1, s[pick := Food])
                       else Game(b, g.pend, g.pend, g.food, g.score, s)
  {}

  lemma StartZip(f: Field, xs: seq<int>, ys: seq<int>)
    requires |xs| == |ys| == 3
    requires forall k | 0 <= k < 3 :: xs[k] == f.cols / 2 - k && ys[k] == f.rows / 2
    ensures Zip(xs, ys) == StartBody(f)
  {}

  class Snake {
    const f: Field
    const sx: array<int>
    const sy: array<int>
    var slen: nat
    var dx: int
    var dy: int
    var pdx: int
    var pdy: int
    var fx: int
    var fy: int
    var score: nat
    var screen: map<Cell, Colour>

    ghost predicate Valid()
      reads this
    {
      sx.Length == sy.Length == MAX_LEN && sx != sy && slen <= MAX_LEN
    }

    ghost function Body(): seq<Cell>
      requires Valid()
      reads this, sx, sy
    {
      Zip(sx[..slen], sy[..slen])
    }

    ghost function State(): Game
      requires Valid()
      reads this, sx, sy
    {
      Game(Body(), Dir(dx, dy), Dir(pdx, pdy), Cell(fx, fy), score, screen)
    }

    constructor (cols: int, rows: int)
      requires cols >= 4 && rows >= 1
      ensures Valid() && fresh(sx) && fresh(sy) && f == Field(cols, rows)
    {
      f := Field(cols, rows);
      sx, sy := new int[MAX_LEN](i => 0), new int[MAX_LEN](i => 0);
      slen, score, screen := 0, 0, map[];
      dx, dy, pdx, pdy, fx, fy := 0, 0, 0, 0, 0, 0;
    }

    method OnSnake(x: int, y: int) returns (on: bool)
      requires Valid()
      ensures on <==> Cell(x, y) in Body()
    {
      var i := 0;
      while i < slen
        invariant i <= slen && Cell(x, y) !in Body()[..i]
      {
        if sx[i] == x && sy[i] == y {
          assert Body()[i] == Cell(x, y);
          return true;
        }
        assert Body()[..i + 1] == Body()[..i] + [Cell(sx[i], sy[i])];
        i := i + 1;
      }
      assert Body()[..i] == Body();
      on := false;
    }

    method PlaceFood(draws: seq<Cell>)
      requires Valid() && HasFree(draws, Body())
      modifies `fx, `fy
      ensures Valid() && Cell(fx, fy) == FirstFree(draws, Body())
    {
      var i, on := 0, true;
      ghost var b := Body();
      while on
        invariant i <= |draws| && (on ==> HasFree(draws[i..], b)) && Body() == b
        invariant FirstFree(draws, b) == if on then FirstFree(draws[i..], b) else Cell(fx, fy)
        decreases |draws| - i, on
      {
        fx, fy := draws[i].x, draws[i].y;
        on := OnSnake(fx, fy);
        assert draws[i] == Cell(fx, fy) && Body() == b;
        if on { StillFree(draws, i, b); }
        i := i + 1;
      }
    }

    // game_cell.
    method Paint(x: int, y: int, c: Colour)
      modifies `screen
      ensures screen == old(screen)[Cell(x, y) := c]
    {
      screen := screen[Cell(x, y) := c];
    }

    // Each segment takes the place of the one before it, from the tail up.
    method Shift(n: nat, hx: int, hy: int)
      requires Valid() && 0 < n <= MAX_LEN
      modifies sx, sy
      ensures sx[..n] == [hx] + old(sx[..n - 1]) && sy[..n] == [hy] + old(sy[..n - 1])
    {
      var i := n - 1;
      ghost var xs, ys := sx[..], sy[..];
      while i > 0
        invariant 0 <= i < n
        invariant forall k | 0 <= k <= i :: sx[k] == xs[k] && sy[k] == ys[k]
        invariant forall k | i < k < n :: sx[k] == xs[k - 1] && sy[k] == ys[k - 1]
      {
        sx[i], sy[i] := sx[i - 1], sy[i - 1];
        i := i - 1;
      }
      sx[0], sy[0] := hx, hy;
    }

    // The body moves up to its new head, keeping its tail if it eats.
    method MoveBody(ghost g: Game, hx: int, hy: int, grow: bool)
      requires Valid() && slen > 0 && g.body == Body() && Cell(hx, hy) == Next(g) && grow == Eats(g)
      modifies sx, sy, `slen
      ensures Valid() && slen > 0 && Body() == Moved(g)
    {
      hide Zip;
      ZipSize(sx[..slen], sy[..slen]);
      var n := if grow then slen + 1 else slen;
      if n > MAX_LEN { n := MAX_LEN; }
      ghost var xs, ys := sx[..slen], sy[..slen];
      assert sx[..n - 1] == xs[..n - 1] && sy[..n - 1] == ys[..n - 1];
      Shift(n, hx, hy);
      slen := n;
      ZipShift(xs, ys, hx, hy, n);
    }

    // What a step paints before any new food.
    method PaintStep(tailX: int, tailY: int, grow: bool)
      requires Valid() && slen > 0
      modifies `screen
      ensures screen == Repainted(old(screen), Body(), Cell(tailX, tailY), grow)
    {
      if !grow { Paint(tailX, tailY, Colour.Back); }
      if slen > 1 { Paint(sx[1], sy[1], Colour.Body); }
      Paint(sx[0], sy[0], Head);
    }

    // One step; false is the end of the game.
    method Advance(draws: seq<Cell>) returns (ok: bool)
      requires Valid() && slen > 0
      requires !Dies(f, State()) && Eats(State()) ==> HasFree(draws, Moved(State()))
      modifies this, sx, sy
      ensures Valid() && slen > 0 && ok == !Dies(f, old(State()))
      ensures State() == if ok then Step(old(State()), FirstFree(draws, Moved(old(State()))))
                         else old(State()).(dir := old(State()).pend)
    {
      hide FirstFree, Moved, HasFree, Zip, Repainted, Step;
      ghost var was := State();
      HeadTail(sx[..slen], sy[..slen]);
      dx, dy := pdx, pdy;
      var hx, hy := sx[0] + dx, sy[0] + dy;
      if hx < 0 || hx >= f.cols || hy < 0 || hy >= f.rows { return false; }
      var on := OnSnake(hx, hy);
      if on { return false; }
      var grow := hx == fx && hy == fy;
      var tailX, tailY := sx[slen - 1], sy[slen - 1];
      MoveBody(was, hx, hy, grow);
      PaintStep(tailX, tailY, grow);
      if grow {
        score := score + 1;
        PlaceFood(draws);
        Paint(fx, fy, Food);
      }
      ok := true;
      StepIs(was, FirstFree(draws, Moved(was)));
    }

    method Reset(draws: seq<Cell>)
      requires Valid() && HasFree(draws, StartBody(f))
      modifies this, sx, sy
      ensures Valid() && slen > 0 && screen == old(screen)
      ensures State() == Restart(f, FirstFree(draws, StartBody(f))).(screen := screen)
    {
      hide FirstFree, HasFree, Zip;
      slen := 3;
      var i := 0;
      while i < slen
        invariant i <= slen == 3 && Valid() && screen == old(screen)
        invariant forall k | 0 <= k < i :: sx[k] == f.cols / 2 - k && sy[k] == f.rows / 2
      {
        sx[i], sy[i] := f.cols / 2 - i, f.rows / 2;
        i := i + 1;
      }
      StartZip(f, sx[..3], sy[..3]);
      dx, dy, pdx, pdy, score := 1, 0, 1, 0, 0;
      PlaceFood(draws);
    }

    // The full repaint.
    method Render()
      requires Valid() && slen > 0
      modifies `screen
      ensures Valid()
      ensures State() == old(State()).(screen := Drawn(f, Cell(fx, fy), Body()))
    {
      screen := Cleared(f);
      Paint(fx, fy, Food);
      var i := 0;
      while i < slen
        invariant i <= slen && Valid()
        invariant screen == Segments(Cleared(f)[Cell(fx, fy) := Food], Body(), i)
      {
        Paint(sx[i], sy[i], if i == 0 then Head else Colour.Body);
        i := i + 1;
      }
    }

    method SetDir(ndx: int, ndy: int)
      requires Valid()
      modifies `pdx, `pdy
      ensures Valid() && State() == Turn(old(State()), Dir(ndx, ndy))
    {
      if ndx == -dx && ndy == -dy { return; }
      pdx, pdy := ndx, ndy;
    }

    // A tick of the game: a step, or after the last one a new game.
    method Tick(draws: seq<Cell>) returns (ghost pick: Cell)
      requires Valid() && slen > 0 && Inside(f, draws)
      requires HasFree(draws, if Dies(f, State()) then StartBody(f) else Moved(State()))
      modifies this, sx, sy
      ensures Valid() && slen > 0
      ensures Legal(f, old(State()), Event.Tick(pick))
      ensures State() == Play(f, old(State()), Event.Tick(pick))
    {
      hide FirstFree, HasFree, Zip, Moved, StartBody, Drawn, Step, In;
      ghost var was := State();
      ZipSize(sx[..slen], sy[..slen]);
      var ok := Advance(draws);
      if ok {
        pick := FirstFree(draws, Moved(was));
        FirstFreeIsFree(f, draws, Moved(was));
      } else {
        pick := FirstFree(draws, StartBody(f));
        FirstFreeIsFree(f, draws, StartBody(f));
        Reset(draws);
        Render();
      }
    }
  }

  lemma StillFree(draws: seq<Cell>, i: nat, b: seq<Cell>)
    requires i < |draws| && HasFree(draws[i..], b) && draws[i] in b
    ensures i + 1 < |draws| && HasFree(draws[i + 1..], b)
    ensures FirstFree(draws[i..], b) == FirstFree(draws[i + 1..], b)
  {
    var rest := draws[i..];
    assert rest[0] == draws[i] && rest[1..] == draws[i + 1..];
    var k :| 0 <= k < |rest| && rest[k] !in b;
    assert draws[i + 1..][k - 1] == rest[k];
  }
}
