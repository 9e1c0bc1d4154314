// What a player sees of the falling-block game (apps/user/tetris/tetris.c), cell by
// cell: the seven pieces, their turns, the moves, and where cleared rows leave the rest.

module TetrisMoves {
  import opened TetrisRules

  // ----- The pieces ------------------------------------------------------------------

  // I, J, L, O, S, T and Z as they appear, as cells of a box.
  datatype Cell = Cell(x: int, y: int)

  const FIRST: seq<seq<Cell>> := [
    [Cell(0, 1), Cell(1, 1), Cell(2, 1), Cell(3, 1)],
    [Cell(1, 0), Cell(1, 1), Cell(0, 2), Cell(1, 2)],
    [Cell(1, 0), Cell(1, 1), Cell(1, 2), Cell(2, 2)],
    [Cell(0, 0), Cell(1, 0), Cell(0, 1), Cell(1, 1)],
    [Cell(1, 1), Cell(2, 1), Cell(0, 2), Cell(1, 2)],
    [Cell(0, 1), Cell(1, 1), Cell(2, 1), Cell(1, 2)],
    [Cell(0, 1), Cell(1, 1), Cell(1, 2), Cell(2, 2)]]

  // The side of the square a piece turns in.
  function Side(t: nat): nat { if t == 0 then 4 else if t == 3 then 2 else 3 }

  // Where a quarter turn clockwise takes a cell of a square of this side.
  function Quarter(c: Cell, side: nat): Cell { Cell(side - 1 - c.y, c.x) }

  function Turned(c: Cell, side: nat, rot: nat): Cell {
    if rot == 0 then c else Quarter(Turned(c, side, rot - 1), side)
  }

  // The cells a piece covers after `rot` turns.
  function Four(t: nat, rot: nat): (cs: seq<Cell>)
    requires t < 7
    ensures |cs| == 4
  {
    var side := Side(t);
    [Turned(FIRST[t][0], side, rot), Turned(FIRST[t][1], side, rot),
     Turned(FIRST[t][2], side, rot), Turned(FIRST[t][3], side, rot)]
  }

  lemma Turns(c: Cell, side: nat)
    ensures Turned(c, side, 0) == c
    ensures Turned(c, side, 1) == Cell(side - 1 - c.y, c.x)
    ensures Turned(c, side, 2) == Cell(side - 1 - c.x, side - 1 - c.y)
    ensures Turned(c, side, 3) == Cell(c.y, side - 1 - c.x)
  {
    assert Turned(c, side, 1) == Quarter(c, side);
    assert Turned(c, side, 2) == Quarter(Quarter(c, side), side);
    assert Turned(c, side, 3) == Quarter(Quarter(Quarter(c, side), side), side);
  }

  // ----- Bits of a mask ---------------------------------------------------------------

  // The bit of cell (x, y), the first row in the highest bits.
  function Weight(x: nat, y: nat): bv16 {
    if y == 0 then (if x == 0 then 0x8000 else if x == 1 then 0x4000 else if x == 2 then 0x2000 else 0x1000)
    else if y == 1 then (if x == 0 then 0x0800 else if x == 1 then 0x0400 else if x == 2 then 0x0200 else 0x0100)
    else if y == 2 then (if x == 0 then 0x0080 else if x == 1 then 0x0040 else if x == 2 then 0x0020 else 0x0010)
    else (if x == 0 then 0x0008 else if x == 1 then 0x0004 else if x == 2 then 0x0002 else 0x0001)
  }

  lemma WeightIs(x: nat, y: nat)
    requires x < 4 && y < 4
    ensures BitMask(y * 4 + x) == Weight(x, y)
  {
    hide BitMask;
    BitMasks();
  }

  // Cell (x, y) of a mask.
  predicate Shown(m: bv16, x: nat, y: nat) { m & Weight(x, y) != 0 }

  lemma ShownIs(m: bv16, x: nat, y: nat)
    requires x < 4 && y < 4
    ensures CellSet(m, x, y) <==> Shown(m, x, y)
  {
    hide BitMask, Weight;
    WeightIs(x, y);
  }

  lemma MasksI(x: nat, y: nat)
    requires x < 4 && y < 4
    ensures Shown(0x0F00, x, y) <==> Cell(x, y) in [Cell(0, 1), Cell(1, 1), Cell(2, 1), Cell(3, 1)]
    ensures Shown(0x2222, x, y) <==> Cell(x, y) in [Cell(2, 0), Cell(2, 1), Cell(2, 2), Cell(2, 3)]
    ensures Shown(0x00F0, x, y) <==> Cell(x, y) in [Cell(3, 2), Cell(2, 2), Cell(1, 2), Cell(0, 2)]
    ensures Shown(0x4444, x, y) <==> Cell(x, y) in [Cell(1, 3), Cell(1, 2), Cell(1, 1), Cell(1, 0)]
  {}

  lemma MasksJ(x: nat, y: nat)
    requires x < 4 && y < 4
    ensures Shown(0x44C0, x, y) <==> Cell(x, y) in [Cell(1, 0), Cell(1, 1), Cell(0, 2), Cell(1, 2)]
    ensures Shown(0x8E00, x, y) <==> Cell(x, y) in [Cell(2, 1), Cell(1, 1), Cell(0, 0), Cell(0, 1)]
    ensures Shown(0x6440, x, y) <==> Cell(x, y) in [Cell(1, 2), Cell(1, 1), Cell(2, 0), Cell(1, 0)]
    ensures Shown(0x0E20, x, y) <==> Cell(x, y) in [Cell(0, 1), Cell(1, 1), Cell(2, 2), Cell(2, 1)]
  {}

  lemma MasksL(x: nat, y: nat)
    requires x < 4 && y < 4
    ensures Shown(0x4460, x, y) <==> Cell(x, y) in [Cell(1, 0), Cell(1, 1), Cell(1, 2), Cell(2, 2)]
    ensures Shown(0x0E80, x, y) <==> Cell(x, y) in [Cell(2, 1), Cell(1, 1), Cell(0, 1), Cell(0, 2)]
    ensures Shown(0xC440, x, y) <==> Cell(x, y) in [Cell(1, 2), Cell(1, 1), Cell(1, 0), Cell(0, 0)]
    ensures Shown(0x2E00, x, y) <==> Cell(x, y) in [Cell(0, 1), Cell(1, 1), Cell(2, 1), Cell(2, 0)]
  {}

  lemma MasksO(x: nat, y: nat)
    requires x < 4 && y < 4
    ensures Shown(0xCC00, x, y) <==> Cell(x, y) in [Cell(0, 0), Cell(1, 0), Cell(0, 1), Cell(1, 1)]
  {}

  lemma MasksS(x: nat, y: nat)
    requires x < 4 && y < 4
    ensures Shown(0x06C0, x, y) <==> Cell(x, y) in [Cell(1, 1), Cell(2, 1), Cell(0, 2), Cell(1, 2)]
    ensures Shown(0x8C40, x, y) <==> Cell(x, y) in [Cell(1, 1), Cell(1, 2), Cell(0, 0), Cell(0, 1)]
    ensures Shown(0x6C00, x, y) <==> Cell(x, y) in [Cell(1, 1), Cell(0, 1), Cell(2, 0), Cell(1, 0)]
    ensures Shown(0x4620, x, y) <==> Cell(x, y) in [Cell(1, 1), Cell(1, 0), Cell(2, 2), Cell(2, 1)]
  {}

  lemma MasksT(x: nat, y: nat)
    requires x < 4 && y < 4
    ensures Shown(0x0E40, x, y) <==> Cell(x, y) in [Cell(0, 1), Cell(1, 1), Cell(2, 1), Cell(1, 2)]
    ensures Shown(0x4C40, x, y) <==> Cell(x, y) in [Cell(1, 0), Cell(1, 1), Cell(1, 2), Cell(0, 1)]
    ensures Shown(0x4E00, x, y) <==> Cell(x, y) in [Cell(2, 1), Cell(1, 1), Cell(0, 1), Cell(1, 0)]
    ensures Shown(0x4640, x, y) <==> Cell(x, y) in [Cell(1, 2), Cell(1, 1), Cell(1, 0), Cell(2, 1)]
  {}

  lemma MasksZ(x: nat, y: nat)
    requires x < 4 && y < 4
    ensures Shown(0x0C60, x, y) <==> Cell(x, y) in [Cell(0, 1), Cell(1, 1), Cell(1, 2), Cell(2, 2)]
    ensures Shown(0x4C80, x, y) <==> Cell(x, y) in [Cell(1, 0), Cell(1, 1), Cell(0, 1), Cell(0, 2)]
    ensures Shown(0xC600, x, y) <==> Cell(x, y) in [Cell(2, 1), Cell(1, 1), Cell(1, 0), Cell(0, 0)]
    ensures Shown(0x2640, x, y) <==> Cell(x, y) in [Cell(1, 2), Cell(1, 1), Cell(2, 1), Cell(2, 0)]
  {}

  lemma CellsI(rot: nat, x: nat, y: nat)
    requires rot < 4 && x < 4 && y < 4
    ensures CellSet(SHAPE[0][rot], x, y) <==> Cell(x, y) in Four(0, rot)
  {
    hide Turned, CellSet, Shown;
    var a, b, c, d := FIRST[0][0], FIRST[0][1], FIRST[0][2], FIRST[0][3];
    assert a == Cell(0, 1) && b == Cell(1, 1) && c == Cell(2, 1) && d == Cell(3, 1);
    Turns(a, 4); Turns(b, 4); Turns(c, 4); Turns(d, 4);
    ShownIs(SHAPE[0][rot], x, y);
    MasksI(x, y);
  }

  lemma CellsJ(rot: nat, x: nat, y: nat)
    requires rot < 4 && x < 4 && y < 4
    ensures CellSet(SHAPE[1][rot], x, y) <==> Cell(x, y) in Four(1, rot)
  {
    hide Turned, CellSet, Shown;
    var a, b, c, d := FIRST[1][0], FIRST[1][1], FIRST[1][2], FIRST[1][3];
    assert a == Cell(1, 0) && b == Cell(1, 1) && c == Cell(0, 2) && d == Cell(1, 2);
    Turns(a, 3); Turns(b, 3); Turns(c, 3); Turns(d, 3);
    ShownIs(SHAPE[1][rot], x, y);
    MasksJ(x, y);
  }

  lemma CellsL(rot: nat, x: nat, y: nat)
    requires rot < 4 && x < 4 && y < 4
    ensures CellSet(SHAPE[2][rot], x, y) <==> Cell(x, y) in Four(2, rot)
  {
    hide Turned, CellSet, Shown;
    var a, b, c, d := FIRST[2][0], FIRST[2][1], FIRST[2][2], FIRST[2][3];
    assert a == Cell(1, 0) && b == Cell(1, 1) && c == Cell(1, 2) && d == Cell(2, 2);
    Turns(a, 3); Turns(b, 3); Turns(c, 3); Turns(d, 3);
    ShownIs(SHAPE[2][rot], x, y);
    MasksL(x, y);
  }

  lemma CellsO(rot: nat, x: nat, y: nat)
    requires rot < 4 && x < 4 && y < 4
    ensures CellSet(SHAPE[3][rot], x, y) <==> Cell(x, y) in Four(3, rot)
  {
    hide Turned, CellSet, Shown;
    var a, b, c, d := FIRST[3][0], FIRST[3][1], FIRST[3][2], FIRST[3][3];
    assert a == Cell(0, 0) && b == Cell(1, 0) && c == Cell(0, 1) && d == Cell(1, 1);
    Turns(a, 2); Turns(b, 2); Turns(c, 2); Turns(d, 2);
    ShownIs(SHAPE[3][rot], x, y);
    MasksO(x, y);
  }

  lemma CellsS(rot: nat, x: nat, y: nat)
    requires rot < 4 && x < 4 && y < 4
    ensures CellSet(SHAPE[4][rot], x, y) <==> Cell(x, y) in Four(4, rot)
  {
    hide Turned, CellSet, Shown;
    var a, b, c, d := FIRST[4][0], FIRST[4][1], FIRST[4][2], FIRST[4][3];
    assert a == Cell(1, 1) && b == Cell(2, 1) && c == Cell(0, 2) && d == Cell(1, 2);
    Turns(a, 3); Turns(b, 3); Turns(c, 3); Turns(d, 3);
    ShownIs(SHAPE[4][rot], x, y);
    MasksS(x, y);
  }

  lemma CellsT(rot: nat, x: nat, y: nat)
    requires rot < 4 && x < 4 && y < 4
    ensures CellSet(SHAPE[5][rot], x, y) <==> Cell(x, y) in Four(5, rot)
  {
    hide Turned, CellSet, Shown;
    var a, b, c, d := FIRST[5][0], FIRST[5][1], FIRST[5][2], FIRST[5][3];
    assert a == Cell(0, 1) && b == Cell(1, 1) && c == Cell(2, 1) && d == Cell(1, 2);
    Turns(a, 3); Turns(b, 3); Turns(c, 3); Turns(d, 3);
    ShownIs(SHAPE[5][rot], x, y);
    MasksT(x, y);
  }

  lemma CellsZ(rot: nat, x: nat, y: nat)
    requires rot < 4 && x < 4 && y < 4
    ensures CellSet(SHAPE[6][rot], x, y) <==> Cell(x, y) in Four(6, rot)
  {
    hide Turned, CellSet, Shown;
    var a, b, c, d := FIRST[6][0], FIRST[6][1], FIRST[6][2], FIRST[6][3];
    assert a == Cell(0, 1) && b == Cell(1, 1) && c == Cell(1, 2) && d == Cell(2, 2);
    Turns(a, 3); Turns(b, 3); Turns(c, 3); Turns(d, 3);
    ShownIs(SHAPE[6][rot], x, y);
    MasksZ(x, y);
  }

  // Which cells of the box a piece covers: those of its first shape, turned clockwise
  // once for each step of its rotation.
  lemma PieceCells(t: nat, rot: nat, x: nat, y: nat)
    requires t < 7 && rot < 4 && x < 4 && y < 4
    ensures CellSet(SHAPE[t][rot], x, y) <==> Cell(x, y) in Four(t, rot)
  {
    hide Four, CellSet;
    if t == 0 { CellsI(rot, x, y); } else if t == 1 { CellsJ(rot, x, y); } else if t == 2 { CellsL(rot, x, y); }
    else if t == 3 { CellsO(rot, x, y); } else if t == 4 { CellsS(rot, x, y); }
    else if t == 5 { CellsT(rot, x, y); } else { CellsZ(rot, x, y); }
  }

  // The colours of the seven pieces, five bits red, six green and five blue.
  lemma ColoursAre()
    ensures COLOR == [0x569C, 0x53DC, 0xECA7, 0xEEA8, 0x5E8D, 0xBB7B, 0xEACB]
  {}

  lemma ColourIs(r: nat, g: nat, b: nat)
    requires r < 256 && g < 256 && b < 256
    ensures Rgb(r, g, b) / 2048 == r / 8 && Rgb(r, g, b) / 32 % 64 == g / 4 && Rgb(r, g, b) % 32 == b / 8
  {
    Split(r / 8, g / 4, b / 8);
  }

  lemma Split(x: nat, y: nat, z: nat)
    requires x < 32 && y < 64 && z < 32
    ensures var v := x * 2048 + y * 32 + z; v / 2048 == x && v / 32 % 64 == y && v % 32 == z
  {
    var v := x * 2048 + y * 32 + z;
    assert v / 32 == x * 64 + y;
  }

  // ----- Pieces in the well --------------------------------------------------------------

  // The piece covers the cell (x, y) of the well.
  predicate On(p: Piece, x: int, y: int)
    requires Real(p)
  {
    0 <= x - p.px < 4 && 0 <= y - p.py < 4 && Cell(x - p.px, y - p.py) in Four(p.t, p.rot)
  }

  // Ten columns, twenty rows, and nothing above counts.
  ghost predicate Blocked(b: Board, x: int, y: int)
    requires Shaped(b)
  {
    x < 0 || x >= 10 || y >= 20 || (y >= 0 && b[y][x] != 0)
  }

  ghost predicate Clear(b: Board, p: Piece)
    requires Shaped(b) && Real(p)
  {
    forall x, y | On(p, x, y) :: !Blocked(b, x, y)
  }

  // A piece collides exactly if it covers a cell that is blocked.
  lemma CollidesExactly(b: Board, p: Piece)
    requires Shaped(b) && Real(p)
    ensures Collides(b, p) <==> !Clear(b, p)
  {
    hide Four, BitSet, SHAPE;
    if Collides(b, p) {
      var i :| 0 <= i < 16 && Hits(b, p, i);
      PieceCells(p.t, p.rot, i % 4, i / 4);
      assert On(p, X(p, i), Y(p, i)) && Blocked(b, X(p, i), Y(p, i));
    }
    if x, y :| On(p, x, y) && Blocked(b, x, y) {
      var i := 4 * (y - p.py) + (x - p.px);
      PieceCells(p.t, p.rot, x - p.px, y - p.py);
      BoxIndex(p, i, x, y);
      assert Hits(b, p, i);
    }
  }

  // The cells of a piece one column or row on are its cells moved by one.
  lemma Moved(p: Piece, dx: int, dy: int, x: int, y: int)
    requires Real(p)
    ensures On(p.(px := p.px + dx, py := p.py + dy), x, y) <==> On(p, x - dx, y - dy)
  {
    hide Four;
    var q := p.(px := p.px + dx, py := p.py + dy);
    assert x - q.px == (x - dx) - p.px && y - q.py == (y - dy) - p.py;
  }

  // What a key does: the piece moves by one, or turns in its square, if all the cells
  // it would cover are free; otherwise nothing changes.
  lemma KeyMoves(g: Game, e: Event)
    requires Shaped(g.board) && Real(g.piece) && !e.Tick?
    ensures var p, q := g.piece, Play(g, e).piece;
      && Play(g, e) == g.(piece := q) && Real(q)
      && var to := if e == Left then Piece(p.t, p.rot, p.px - 1, p.py)
                   else if e == Right then Piece(p.t, p.rot, p.px + 1, p.py)
                   else if e == Down then Piece(p.t, p.rot, p.px, p.py + 1)
                   else Piece(p.t, if p.rot < 3 then p.rot + 1 else 0, p.px, p.py);
         q == if Clear(g.board, to) then to else p
  {
    hide Clear, Collides;
    var p := g.piece;
    CollidesExactly(g.board, p.(px := p.px - 1));
    CollidesExactly(g.board, p.(px := p.px + 1));
    CollidesExactly(g.board, p.(py := p.py + 1));
    CollidesExactly(g.board, p.(rot := (p.rot + 1) % 4));
  }

  // What a tick does: the piece falls by one if it can; if not, it is locked, a new
  // piece comes in at the top between the columns 3 and 6, and if that has no room
  // the next game begins on an empty board.
  lemma TickMoves(g: Game, next: nat, again: nat)
    requires Shaped(g.board) && Real(g.piece) && next < 7 && again < 7
    ensures Shaped(Lock(g).board)
    ensures var p, r := g.piece, Play(g, Tick(next, again));
      var down := Piece(p.t, p.rot, p.px, p.py + 1);
      if Clear(g.board, down) then r == g.(piece := down)
      else if Clear(Lock(g).board, Piece(next, 0, 3, 0)) then r == Lock(g).(piece := Piece(next, 0, 3, 0))
      else
        && r.piece == Piece(again, 0, 3, 0) && r.score == 0 && r.lines == 0 && r.locked == 0
        && Shaped(r.board) && forall x, y | 0 <= x < 10 && 0 <= y < 20 :: r.board[y][x] == 0
  {
    hide Clear, Collides, Lock, Blanks;
    LockShaped(g);
    CollidesExactly(g.board, g.piece.(py := g.piece.py + 1));
    CollidesExactly(Lock(g).board, Spawn(next));
    BlanksAre(20);
    forall x | 0 <= x < 10 ensures BLANK[x] == 0 { BlankCell(x); }
  }

  // ----- Where cleared rows leave the others ------------------------------------------------

  // Full rows from `r` on.
  function FullFrom(b: Board, r: nat): nat
    requires r <= |b|
    decreases |b| - r
  {
    if r == |b| then 0 else (if Full(b[r]) then 1 else 0) + FullFrom(b, r + 1)
  }

  lemma {:induction false} KeptAt(b: Board, n: nat, r: nat)
    requires r < n <= |b| && !Full(b[r])
    ensures var kept := NotFull(b[..n]);
      var k := |kept| - (n - r) + FullFrom(b[..n], r); 0 <= k < |kept| && kept[k] == b[r]
    decreases n
  {
    hide Full;
    assert b[..n][..n - 1] == b[..n - 1] && b[..n][n - 1] == b[n - 1];
    FullMore(b[..n], n - 1, r);
    if r < n - 1 { KeptAt(b, n - 1, r); }
    else { assert FullFrom(b[..n][..n - 1], r) == 0; }
  }

  lemma {:induction false} FullMore(b: Board, n: nat, r: nat)
    requires n == |b| - 1 && r <= n
    ensures FullFrom(b, r) == FullFrom(b[..n], r) + if Full(b[n]) then 1 else 0
    decreases n - r
  {
    hide Full;
    if r < n {
      FullMore(b, n, r + 1);
      assert b[..n][r] == b[r];
    } else {
      assert FullFrom(b, n + 1) == 0;
    }
  }

  // Each row that is not full drops by the number of full rows below it.
  lemma RowsDrop(b: Board, r: nat)
    requires Shaped(b) && r < 20 && !Full(b[r])
    ensures var to := r + FullFrom(b, r); to < 20 && Shaped(Swept(b)) && Swept(b)[to] == b[r]
  {
    hide NotFull, Full, Blanks, FullFrom;
    assert b[..20] == b;
    SweptIs(b);
    KeptAt(b, 20, r);
    BlanksAre(Cleared(b));
  }
}
