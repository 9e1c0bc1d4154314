// The snake game (apps/user/snake/snake.c) as a state machine over its keys and
// ticks. A tick repaints only the cells that changed; the board it leaves is the
// board a full repaint would draw.

module SnakeRules {

  const MAX_LEN := 512

  datatype Cell = Cell(x: int, y: int)
  datatype Dir = Dir(dx: int, dy: int)
  datatype Colour = Back | Body | Head | Food

  // The field is `cols` by `rows` cells.
  datatype Field = Field(cols: int, rows: int)

  predicate In(f: Field, c: Cell) { 0 <= c.x < f.cols && 0 <= c.y < f.rows }

  predicate Unit(d: Dir) {
    (d.dx == 0 && (d.dy == 1 || d.dy == -1)) || (d.dy == 0 && (d.dx == 1 || d.dx == -1))
  }
  function Ahead(c: Cell, d: Dir): Cell { Cell(c.x + d.dx, c.y + d.dy) }
  function Back180(d: Dir): Dir { Dir(-d.dx, -d.dy) }

  // The body head first, the direction of the last step and the one asked for.
  datatype Game = Game(body: seq<Cell>, dir: Dir, pend: Dir, food: Cell, score: nat,
                       screen: map<Cell, Colour>)

  // What a full repaint puts in a cell.
  function Shade(g: Game, c: Cell): Colour {
    if g.body != [] && c == g.body[0] then Head
    else if c in g.body then Body
    else if c == g.food then Food
    else Back
  }

  ghost predicate Painted(f: Field, g: Game) {
    forall c | In(f, c) :: c in g.screen && g.screen[c] == Shade(g, c)
  }

  ghost predicate Distinct(b: seq<Cell>) { forall i, j | 0 <= i < j < |b| :: b[i] != b[j] }
  ghost predicate Inside(f: Field, b: seq<Cell>) { forall i | 0 <= i < |b| :: In(f, b[i]) }
  // Neighbours along the body are neighbours in the field.
  predicate Adjacent(a: Cell, b: Cell) { Unit(Dir(a.x - b.x, a.y - b.y)) }
  ghost predicate Chain(b: seq<Cell>) { forall i | 0 < i < |b| :: Adjacent(b[i - 1], b[i]) }

  // What holds whenever play goes on.
  ghost predicate Good(f: Field, g: Game) {
    && 3 <= |g.body| <= MAX_LEN && |g.body| == 3 + g.score
    && Distinct(g.body) && Inside(f, g.body) && Chain(g.body)
    && In(f, g.food) && g.food !in g.body
    && Unit(g.dir) && Unit(g.pend) && g.pend != Back180(g.dir)
    && g.body[0] == Ahead(g.body[1], g.dir)
  }

  // ----- Steps -----------------------------------------------------------------------

  // set_dir: no reversing.
  function Turn(g: Game, d: Dir): Game { if d == Back180(g.dir) then g else g.(pend := d) }

  function Next(g: Game): Cell
    requires g.body != []
  {
    Ahead(g.body[0], g.pend)
  }

  predicate Dies(f: Field, g: Game)
    requires g.body != []
  {
    !In(f, Next(g)) || Next(g) in g.body
  }

  predicate Eats(g: Game)
    requires g.body != []
  {
    Next(g) == g.food
  }

  // The shifted body: one longer after eating, unless the arrays are full.
  function Moved(g: Game): (b: seq<Cell>)
    requires 0 < |g.body| <= MAX_LEN
    ensures 0 < |b| <= MAX_LEN
  {
    var n := if Eats(g) && |g.body| < MAX_LEN then |g.body| + 1 else |g.body|;
    [Next(g)] + g.body[..n - 1]
  }

  // A step that does not end the game; `pick` is where new food goes.
  function Step(g: Game, pick: Cell): Game
    requires 0 < |g.body| <= MAX_LEN
  {
    var b := Moved(g);
    var s0 := if Eats(g) then g.screen else g.screen[g.body[|g.body| - 1] := Back];
    var s1 := if |b| > 1 then s0[b[1] := Body] else s0;
    var s2 := s1[b[0] := Head];
    if Eats(g) then Game(b, g.pend, g.pend, pick, g.score + 1, s2[pick := Food])
    else Game(b, g.pend, g.pend, g.food, g.score, s2)
  }

  // ----- The step keeps the body a path ------------------------------------------------

  lemma MovedInside(f: Field, g: Game)
    requires Good(f, g) && !Dies(f, g)
    ensures Inside(f, Moved(g)) && Distinct(Moved(g))
  {
    hide Chain, Unit;
    var b := Moved(g);
    assert forall i | 0 < i < |b| :: b[i] == g.body[i - 1];
  }

  lemma MovedChain(f: Field, g: Game)
    requires Good(f, g)
    ensures Chain(Moved(g)) && Moved(g)[0] == Ahead(Moved(g)[1], g.pend)
  {
    hide Distinct, Inside, In, Unit;
    var b := Moved(g);
    assert b[1] == g.body[0] && Dir(b[0].x - b[1].x, b[0].y - b[1].y) == g.pend;
    forall i | 0 < i < |b| ensures Adjacent(b[i - 1], b[i]) {
      if i > 1 { assert b[i - 1] == g.body[i - 2] && b[i] == g.body[i - 1]; }
    }
  }

  // ----- The step paints what changed ----------------------------------------------------

  // Any cell of the field shows, after the step, what a full repaint would show.
  // The one exception is a snake that eats with its arrays full: the segment that
  // falls off the end is never erased.
  lemma StepPaintsCell(f: Field, g: Game, pick: Cell, c: Cell)
    requires Good(f, g) && !Dies(f, g) && In(f, c) && c in g.screen && g.screen[c] == Shade(g, c)
    requires In(f, pick) && pick !in Moved(g)
    requires Eats(g) ==> |g.body| < MAX_LEN
    ensures var r := Step(g, pick); c in r.screen && r.screen[c] == Shade(r, c)
  {
    hide Chain, Unit, Inside, In;
    var b, last := Moved(g), |g.body| - 1;
    assert b[1] == g.body[0];
    if Eats(g) {
      assert g.body[..last + 1] == g.body;
    } else {
      InShifted(g.body, b, c);
    }
  }

  lemma InShifted(a: seq<Cell>, b: seq<Cell>, c: Cell)
    requires a != [] && b != [] && Distinct(a) && b == [b[0]] + a[..|a| - 1]
    ensures c in b <==> c == b[0] || (c in a && c != a[|a| - 1])
  {
    if c in a && c != a[|a| - 1] {
      var i :| 0 <= i < |a| && a[i] == c;
      assert b[i + 1] == c;
    }
  }

  // A step leaves the game good and the board as a full repaint would.
  lemma StepKeeps(f: Field, g: Game, pick: Cell)
    requires Good(f, g) && Painted(f, g) && !Dies(f, g)
    requires In(f, pick) && pick !in Moved(g) && (Eats(g) ==> |g.body| < MAX_LEN)
    ensures Good(f, Step(g, pick)) && Painted(f, Step(g, pick))
  {
    StepGood(f, g, pick);
    hide Good, Shade, Step, In;
    var r := Step(g, pick);
    forall c | In(f, c) ensures c in r.screen && r.screen[c] == Shade(r, c) {
      StepPaintsCell(f, g, pick, c);
    }
  }

  lemma StepGood(f: Field, g: Game, pick: Cell)
    requires Good(f, g) && !Dies(f, g)
    requires In(f, pick) && pick !in Moved(g) && (Eats(g) ==> |g.body| < MAX_LEN)
    ensures Good(f, Step(g, pick))
  {
    MovedInside(f, g);
    MovedChain(f, g);
    hide Chain, Distinct, Inside, In, Unit;
  }

  // With the arrays full and the food eaten, the board is right exactly if the new
  // food happens to land on the segment that fell off, and the length falls behind
  // the score for good.
  lemma FullArraysStale(f: Field, g: Game, pick: Cell)
    requires Good(f, g) && Painted(f, g) && !Dies(f, g) && Eats(g) && |g.body| == MAX_LEN
    requires In(f, pick) && pick !in Moved(g)
    ensures Painted(f, Step(g, pick)) <==> pick == g.body[MAX_LEN - 1]
    ensures |Step(g, pick).body| != 3 + Step(g, pick).score
  {
    hide Chain, Unit, In;
    var r, b, t := Step(g, pick), Moved(g), g.body[MAX_LEN - 1];
    assert b[1] == g.body[0];
    InShifted(g.body, b, t);
    if pick == t {
      forall c | In(f, c) ensures c in r.screen && r.screen[c] == Shade(r, c) {
        InShifted(g.body, b, c);
      }
    } else {
      assert t in g.body && In(f, t);
    }
  }

  // ----- Room on the field -----------------------------------------------------------------

  ghost function Row(cols: nat, y: int): set<Cell> { set x | 0 <= x < cols :: Cell(x, y) }
  ghost function Cells(f: Field): set<Cell> { set x, y | 0 <= x < f.cols && 0 <= y < f.rows :: Cell(x, y) }
  ghost function SetOf(b: seq<Cell>): set<Cell> { set i | 0 <= i < |b| :: b[i] }

  lemma {:induction false} RowSize(cols: nat, y: int)
    ensures |Row(cols, y)| == cols
  {
    if cols > 0 {
      RowSize(cols - 1, y);
      assert Row(cols, y) == Row(cols - 1, y) + {Cell(cols - 1, y)};
    }
  }

  lemma {:induction false} CellsSize(cols: nat, rows: nat)
    ensures |Cells(Field(cols, rows))| == cols * rows
    decreases rows
  {
    if rows == 0 {
      assert Cells(Field(cols, 0)) == {};
    } else {
      hide Cells, Row;
      CellsSize(cols, rows - 1);
      RowSize(cols, rows - 1);
      LastRow(cols, rows);
      assert cols * rows == cols * (rows - 1) + cols;
    }
  }

  lemma LastRow(cols: nat, rows: nat)
    requires rows > 0
    ensures var upper, last := Cells(Field(cols, rows - 1)), Row(cols, rows - 1);
      Cells(Field(cols, rows)) == upper + last && upper * last == {}
  {}

  lemma {:induction false} SetOfSize(b: seq<Cell>)
    requires Distinct(b)
    ensures |SetOf(b)| == |b|
    decreases |b|
  {
    if b != [] {
      var n := |b| - 1;
      SetOfSize(b[..n]);
      assert SetOf(b) == SetOf(b[..n]) + {b[n]};
    }
  }

  // A path of distinct cells is no longer than the field, and there is a free cell
  // exactly if it is shorter: where place_food stops, and where it never would.
  lemma FreeCell(f: Field, b: seq<Cell>)
    requires f.cols >= 0 && f.rows >= 0 && Distinct(b) && Inside(f, b)
    ensures |b| <= f.cols * f.rows
    ensures (exists c :: In(f, c) && c !in b) <==> |b| < f.cols * f.rows
  {
    CellsSize(f.cols, f.rows);
    SetOfSize(b);
    var all, mine := Cells(f), SetOf(b);
    assert mine <= all;
    assert all == mine + (all - mine);
    if |b| < |all| {
      assert all - mine != {};
      var c :| c in all - mine;
      assert In(f, c) && c !in b;
    } else {
      assert all - mine == {};
      forall c | In(f, c) ensures c in b {
        assert c in all;
      }
    }
  }

  // ----- Whole games -------------------------------------------------------------------------

  function StartBody(f: Field): seq<Cell> {
    [Cell(f.cols / 2, f.rows / 2), Cell(f.cols / 2 - 1, f.rows / 2), Cell(f.cols / 2 - 2, f.rows / 2)]
  }

  // The first body lies in the field exactly if there are four columns and a row.
  lemma StartInside(f: Field)
    requires f.cols >= 0 && f.rows >= 0
    ensures Inside(f, StartBody(f)) <==> f.cols >= 4 && f.rows >= 1
  {
    var b := StartBody(f);
    assert Inside(f, b) ==> In(f, b[0]) && In(f, b[2]);
  }

  function Cleared(f: Field): map<Cell, Colour> {
    map x: int, y: int | 0 <= x < f.cols && 0 <= y < f.rows :: Cell(x, y) := Back
  }

  // The first `n` segments painted over a board, the head first.
  function Segments(screen: map<Cell, Colour>, b: seq<Cell>, n: nat): map<Cell, Colour>
    requires n <= |b|
  {
    if n == 0 then screen
    else Segments(screen, b, n - 1)[b[n - 1] := if n == 1 then Head else Colour.Body]
  }

  function Drawn(f: Field, food: Cell, b: seq<Cell>): map<Cell, Colour> {
    Segments(Cleared(f)[food := Food], b, |b|)
  }

  // A full repaint shows the head, the rest of the body, the food and nothing else.
  lemma {:induction false} SegmentsShow(screen: map<Cell, Colour>, b: seq<Cell>, n: nat, c: Cell)
    requires n <= |b| && Distinct(b) && c in screen
    ensures var r := Segments(screen, b, n);
      && c in r
      && r[c] == if n > 0 && c == b[0] then Head else if c in b[..n] then Colour.Body else screen[c]
    decreases n
  {
    if n > 0 {
      SegmentsShow(screen, b, n - 1, c);
      assert b[..n] == b[..n - 1] + [b[n - 1]];
    }
  }

  lemma RenderShows(f: Field, g: Game, c: Cell)
    requires In(f, c) && Distinct(g.body)
    ensures var r := Drawn(f, g.food, g.body); c in r && r[c] == Shade(g, c)
  {
    assert c in Cleared(f);
    SegmentsShow(Cleared(f)[g.food := Food], g.body, |g.body|, c);
    assert g.body[..|g.body|] == g.body;
  }

  // So a painted board and a full repaint agree on every cell of the field.
  lemma PaintedIsRendered(f: Field, g: Game)
    requires Painted(f, g) && Distinct(g.body)
    ensures forall c | In(f, c) :: c in Drawn(f, g.food, g.body) && g.screen[c] == Drawn(f, g.food, g.body)[c]
  {
    hide Drawn, Shade, In;
    forall c | In(f, c)
      ensures c in Drawn(f, g.food, g.body) && g.screen[c] == Drawn(f, g.food, g.body)[c] {
      RenderShows(f, g, c);
    }
  }

  // reset and render.
  function Restart(f: Field, pick: Cell): Game {
    Game(StartBody(f), Dir(1, 0), Dir(1, 0), pick, 0, Drawn(f, pick, StartBody(f)))
  }

  lemma RestartGood(f: Field, pick: Cell)
    requires f.cols >= 4 && f.rows >= 1 && In(f, pick) && pick !in StartBody(f)
    ensures Good(f, Restart(f, pick)) && Painted(f, Restart(f, pick))
  {
    hide Drawn, Shade;
    StartInside(f);
    var g := Restart(f, pick);
    var b := g.body;
    assert Adjacent(b[0], b[1]) && Adjacent(b[1], b[2]);
    forall c | In(f, c) ensures c in g.screen && g.screen[c] == Shade(g, c) {
      RenderShows(f, g, c);
    }
  }

  datatype Event = Key(d: Dir) | Tick(pick: Cell)

  function Play(f: Field, g: Game, e: Event): (r: Game)
    requires 0 < |g.body| <= MAX_LEN
    ensures 0 < |r.body| <= MAX_LEN
  {
    match e
    case Key(d) => Turn(g, d)
    case Tick(pick) => if Dies(f, g) then Restart(f, pick) else Step(g, pick)
  }

  // The keys steer one cell at a time, and new food goes on a free cell.
  ghost predicate Legal(f: Field, g: Game, e: Event)
    requires 0 < |g.body| <= MAX_LEN
  {
    match e
    case Key(d) => Unit(d)
    case Tick(pick) => In(f, pick) && pick !in (if Dies(f, g) then StartBody(f) else Moved(g))
  }

  ghost predicate Small(f: Field) { f.cols >= 4 && f.rows >= 1 && f.cols * f.rows <= MAX_LEN }

  lemma PlayKeeps(f: Field, g: Game, e: Event)
    requires Small(f) && Good(f, g) && Painted(f, g) && Legal(f, g, e)
    ensures Good(f, Play(f, g, e)) && Painted(f, Play(f, g, e))
  {
    hide Restart, Step, StartBody, Painted, Shade;
    match e
    case Key(d) => TurnKeeps(f, g, d);
    case Tick(pick) =>
      if Dies(f, g) {
        RestartGood(f, pick);
      } else {
        if Eats(g) { RoomToGrow(f, g); }
        StepKeeps(f, g, pick);
      }
  }

  lemma TurnKeeps(f: Field, g: Game, d: Dir)
    requires Good(f, g) && Painted(f, g) && Unit(d)
    ensures Good(f, Turn(g, d)) && Painted(f, Turn(g, d))
  {
    hide Distinct, Inside, Chain, In;
    var r := Turn(g, d);
    forall c | In(f, c) ensures c in r.screen && r.screen[c] == Shade(r, c) {
      assert Shade(r, c) == Shade(g, c);
    }
  }

  // On a field of at most MAX_LEN cells the arrays are never full when food is eaten.
  lemma RoomToGrow(f: Field, g: Game)
    requires Small(f) && Good(f, g) && !Dies(f, g) && Eats(g)
    ensures |g.body| < MAX_LEN
  {
    hide Chain, Unit;
    var b := [Next(g)] + g.body;
    assert forall i | 0 < i < |b| :: b[i] == g.body[i - 1];
    FreeCell(f, b);
  }

  // Steering can never run the head back into the neck.
  lemma NeverReverses(f: Field, g: Game)
    requires Good(f, g)
    ensures Next(g) != g.body[1]
  {}

  ghost predicate LegalRun(f: Field, g: Game, es: seq<Event>)
    requires 0 < |g.body| <= MAX_LEN
    decreases |es|
  {
    es != [] ==>
      Legal(f, g, es[0]) && LegalRun(f, Play(f, g, es[0]), es[1..])
  }

  function After(f: Field, g: Game, es: seq<Event>): Game
    requires 0 < |g.body| <= MAX_LEN
    decreases |es|
  {
    if es == [] then g else After(f, Play(f, g, es[0]), es[1..])
  }

  // Every reachable state is good and shows on the screen as a full repaint would.
  lemma {:induction false} EveryRun(f: Field, g: Game, es: seq<Event>)
    requires Small(f) && Good(f, g) && Painted(f, g) && LegalRun(f, g, es)
    ensures Good(f, After(f, g, es)) && Painted(f, After(f, g, es))
    decreases |es|
  {
    hide Painted, Play, Legal;
    if es != [] {
      PlayKeeps(f, g, es[0]);
      EveryRun(f, Play(f, g, es[0]), es[1..]);
    }
  }
}
