// A long game of snake: on the field of a 320 by 240 panel, food can lead the snake
// along the lower rows until its arrays are full, and its next meal spoils the board.

module SnakeFull {
  import opened SnakeRules

  // The cells of the panel in steps of 8 pixels, below a status line of 10.
  const FIELD := Field(40, 28)

  // The path: from the row of the first body down, in turns.
  function Path(j: nat): (c: Cell) {
    Cell(if j / 40 % 2 == 0 then j % 40 else 39 - j % 40, 14 + j / 40)
  }

  // The direction from a cell of the path to the next.
  function Way(j: nat): Dir { Dir(Path(j + 1).x - Path(j).x, Path(j + 1).y - Path(j).y) }

  lemma PathInside(j: nat)
    requires j < 560
    ensures In(FIELD, Path(j))
  {}

  lemma PathDistinct(i: nat, j: nat)
    requires i != j
    ensures Path(i) != Path(j)
  {}

  lemma WayTurns(j: nat)
    ensures Unit(Way(j)) && Way(j + 1) != Back180(Way(j)) && Ahead(Path(j), Way(j)) == Path(j + 1)
  {}

  // The snake has `n` cells, covers the path up to cell n + 17, and has food ahead.
  ghost predicate Along(g: Game, n: nat) {
    && n >= 3 && Good(FIELD, g) && Painted(FIELD, g) && |g.body| == n
    && g.food == Path(18 + n) && g.dir == Way(16 + n) && Covers(g.body, 17 + n)
  }

  ghost predicate Covers(b: seq<Cell>, head: nat) {
    |b| <= head && forall i | 0 <= i < |b| :: b[i] == Path(head - i)
  }

  // A cell of the path ahead is free.
  lemma AheadFree(b: seq<Cell>, head: nat, j: nat)
    requires Covers(b, head) && j > head
    ensures Path(j) !in b
  {
    forall i | 0 <= i < |b| ensures b[i] != Path(j) { PathDistinct(head - i, j); }
  }

  lemma MovedCovers(g: Game, n: nat)
    requires Along(g, n) && n <= MAX_LEN
    requires Next(g) == Path(18 + n)
    ensures Covers(Moved(g), 18 + n)
  {
    hide Good, Painted, Path;
  }

  // Steering along the path, the snake eats and does not die.
  lemma Steered(g: Game, n: nat)
    requires Along(g, n) && n <= MAX_LEN
    ensures var t := Turn(g, Way(17 + n));
      && Along(t, n) && t.pend == Way(17 + n) && Next(t) == Path(18 + n) && Unit(Way(17 + n))
  {
    hide Good, Painted, Path, Way, Covers, Unit;
    var d := Way(17 + n);
    WayTurns(16 + n);
    assert d != Back180(g.dir);
    WayTurns(17 + n);
    TurnKeeps(FIELD, g, d);
    HeadAt(g.body, 17 + n);
  }

  lemma HeadAt(b: seq<Cell>, head: nat)
    requires Covers(b, head) && b != []
    ensures b[0] == Path(head)
  {}

  lemma Clear(g: Game, n: nat)
    requires Along(g, n) && n <= MAX_LEN && Next(g) == Path(18 + n)
    ensures !Dies(FIELD, g) && Eats(g)
  {
    hide Good, Painted, Path, Way, Covers, In;
    AheadFree(g.body, 17 + n, 18 + n);
    PathInside(18 + n);
  }

  lemma Fed(g: Game, n: nat)
    requires Along(g, n) && n < MAX_LEN && g.pend == Way(17 + n) && Next(g) == Path(18 + n)
    ensures Legal(FIELD, g, Tick(Path(19 + n))) && !Dies(FIELD, g) && Along(Step(g, Path(19 + n)), n + 1)
  {
    hide Good, Painted, Path, Way, Covers, In;
    Clear(g, n);
    MovedCovers(g, n);
    AheadFree(Moved(g), 18 + n, 19 + n);
    PathInside(19 + n);
    StepKeeps(FIELD, g, Path(19 + n));
  }

  lemma LastMeal(g: Game)
    requires Along(g, MAX_LEN) && Next(g) == Path(18 + MAX_LEN)
    ensures var pick := Path(19 + MAX_LEN);
      Legal(FIELD, g, Tick(pick)) && !Dies(FIELD, g) && Stale(Step(g, pick))
  {
    hide Painted, Path, Way, Covers, In;
    Clear(g, MAX_LEN);
    MovedCovers(g, MAX_LEN);
    AheadFree(Moved(g), 18 + MAX_LEN, 19 + MAX_LEN);
    AheadFree(g.body, 17 + MAX_LEN, 19 + MAX_LEN);
    PathInside(19 + MAX_LEN);
    FullArraysStale(FIELD, g, Path(19 + MAX_LEN));
  }

  // A board that a repaint would change, under a snake shorter than its score says.
  ghost predicate Stale(g: Game) {
    !Painted(FIELD, g) && |g.body| == 512 && g.score == 510
  }

  lemma KeyAndTick(g: Game, d: Dir, pick: Cell, rest: seq<Event>)
    requires 0 < |g.body| <= MAX_LEN && Unit(d)
    requires var t := Turn(g, d); Legal(FIELD, t, Tick(pick)) && !Dies(FIELD, t)
    ensures var es, r := [Key(d), Tick(pick)] + rest, Step(Turn(g, d), pick);
      && (LegalRun(FIELD, g, es) <==> LegalRun(FIELD, r, rest))
      && After(FIELD, g, es) == After(FIELD, r, rest)
  {
    hide Step, Dies, Moved;
    var es := [Key(d), Tick(pick)] + rest;
    assert es[0] == Key(d) && es[1..][0] == Tick(pick) && es[1..][1..] == rest;
  }

  // From any such state on, a legal run ends with a stale board.
  lemma {:induction false} StaleFrom(g: Game, n: nat) returns (es: seq<Event>)
    requires Along(g, n) && n <= MAX_LEN
    ensures LegalRun(FIELD, g, es) && Stale(After(FIELD, g, es))
    decreases MAX_LEN - n
  {
    hide Good, Painted, Path, Way, Covers, Step, Legal, Turn, Dies, Stale;
    Steered(g, n);
    var d, pick := Way(17 + n), Path(19 + n);
    var t := Turn(g, d);
    if n < MAX_LEN {
      Fed(t, n);
      var rest := StaleFrom(Step(t, pick), n + 1);
      KeyAndTick(g, d, pick, rest);
      es := [Key(d), Tick(pick)] + rest;
    } else {
      LastMeal(t);
      KeyAndTick(g, d, pick, []);
      es := [Key(d), Tick(pick)] + [];
    }
  }

  lemma StartAlong()
    ensures var g := Restart(FIELD, Path(21)); Path(21) !in StartBody(FIELD) && Along(g, 3)
  {
    hide Good, Painted, Shade, Drawn, LegalRun;
    assert Covers(StartBody(FIELD), 20);
    AheadFree(StartBody(FIELD), 20, 21);
    PathInside(21);
    RestartGood(FIELD, Path(21));
  }

  // A new game, with its food on a free cell, and a legal run of it that ends so.
  lemma FullArraysHappen() returns (food: Cell, es: seq<Event>)
    ensures In(FIELD, food) && food !in StartBody(FIELD)
    ensures var g := Restart(FIELD, food); LegalRun(FIELD, g, es) && Stale(After(FIELD, g, es))
  {
    hide Path, Along, Restart, StartBody, LegalRun, After, Stale;
    food := Path(21);
    PathInside(21);
    StartAlong();
    es := StaleFrom(Restart(FIELD, food), 3);
  }
}
