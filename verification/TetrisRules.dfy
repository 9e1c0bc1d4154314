// The falling-block game (apps/user/tetris/tetris.c): its board, its moves and
// what every game keeps.

module TetrisRules {

  const COLS := 10
  const ROWS := 20
  const PIECES := 7

  // Seven pieces in four rotations, as 4x4 masks.
  const SHAPE: seq<seq<bv16>> := [
    [0x0F00, 0x2222, 0x00F0, 0x4444],
    [0x44C0, 0x8E00, 0x6440, 0x0E20],
    [0x4460, 0x0E80, 0xC440, 0x2E00],
    [0xCC00, 0xCC00, 0xCC00, 0xCC00],
    [0x06C0, 0x8C40, 0x6C00, 0x4620],
    [0x0E40, 0x4C40, 0x4E00, 0x4640],
    [0x0C60, 0x4C80, 0xC600, 0x2640]]

  // ----- Pieces ---------------------------------------------------------------------

  // 0x8000 >> i.
  function BitMask(i: nat): bv16 { if i == 0 then 0x8000 else BitMask(i - 1) >> 1 }

  predicate BitSet(mask: bv16, i: nat) { mask & BitMask(i) != 0 }

  // cell_set: is (x, y) of the 4x4 box part of the piece?
  predicate CellSet(mask: bv16, x: nat, y: nat) { BitSet(mask, y * 4 + x) }

  function One(b: bool): nat { if b then 1 else 0 }

  // The cells among the first n of the box, row by row.
  function Count(mask: bv16, n: nat): nat {
    if n == 0 then 0 else Count(mask, n - 1) + One(BitSet(mask, n - 1))
  }

  lemma BitMasks()
    ensures BitMask(0) == 0x8000 && BitMask(1) == 0x4000 && BitMask(2) == 0x2000 && BitMask(3) == 0x1000
    ensures BitMask(4) == 0x0800 && BitMask(5) == 0x0400 && BitMask(6) == 0x0200 && BitMask(7) == 0x0100
    ensures BitMask(8) == 0x0080 && BitMask(9) == 0x0040 && BitMask(10) == 0x0020 && BitMask(11) == 0x0010
    ensures BitMask(12) == 0x0008 && BitMask(13) == 0x0004 && BitMask(14) == 0x0002 && BitMask(15) == 0x0001
  {}

  function Has(m: bv16, w: bv16): nat { One(m & w != 0) }

  function PopCount(m: bv16): nat {
    Has(m, 0x8000) + Has(m, 0x4000) + Has(m, 0x2000) + Has(m, 0x1000)
    + Has(m, 0x0800) + Has(m, 0x0400) + Has(m, 0x0200) + Has(m, 0x0100)
    + Has(m, 0x0080) + Has(m, 0x0040) + Has(m, 0x0020) + Has(m, 0x0010)
    + Has(m, 0x0008) + Has(m, 0x0004) + Has(m, 0x0002) + Has(m, 0x0001)
  }

  lemma CountFour(m: bv16, n: nat)
    ensures Count(m, n + 4) == Count(m, n) + One(BitSet(m, n)) + One(BitSet(m, n + 1))
                             + One(BitSet(m, n + 2)) + One(BitSet(m, n + 3))
  {
    hide BitSet, One;
    assert Count(m, n + 1) == Count(m, n) + One(BitSet(m, n));
    assert Count(m, n + 2) == Count(m, n + 1) + One(BitSet(m, n + 1));
    assert Count(m, n + 3) == Count(m, n + 2) + One(BitSet(m, n + 2));
  }

  lemma BitIs(m: bv16, i: nat, w: bv16)
    requires BitMask(i) == w
    ensures One(BitSet(m, i)) == Has(m, w)
  {}

  lemma CountIsPop(m: bv16)
    ensures Count(m, 16) == PopCount(m)
  {
    hide BitMask, BitSet, Count, One, Has;
    BitMasks();
    CountNone(m);
    BitIs(m, 0, 0x8000); BitIs(m, 1, 0x4000); BitIs(m, 2, 0x2000); BitIs(m, 3, 0x1000);
    CountFour(m, 0);
    BitIs(m, 4, 0x0800); BitIs(m, 5, 0x0400); BitIs(m, 6, 0x0200); BitIs(m, 7, 0x0100);
    CountFour(m, 4);
    BitIs(m, 8, 0x0080); BitIs(m, 9, 0x0040); BitIs(m, 10, 0x0020); BitIs(m, 11, 0x0010);
    CountFour(m, 8);
    BitIs(m, 12, 0x0008); BitIs(m, 13, 0x0004); BitIs(m, 14, 0x0002); BitIs(m, 15, 0x0001);
    CountFour(m, 12);
  }

  lemma CountNone(m: bv16)
    ensures Count(m, 0) == 0
  {}

  lemma PopIJL()
    ensures PopCount(0x0F00) == PopCount(0x2222) == PopCount(0x00F0) == PopCount(0x4444) == 4
    ensures PopCount(0x44C0) == PopCount(0x8E00) == PopCount(0x6440) == PopCount(0x0E20) == 4
    ensures PopCount(0x4460) == PopCount(0x0E80) == PopCount(0xC440) == PopCount(0x2E00) == 4
  {}

  lemma PopOS()
    ensures PopCount(0xCC00) == 4
    ensures PopCount(0x06C0) == PopCount(0x8C40) == PopCount(0x6C00) == PopCount(0x4620) == 4
  {}

  lemma PopTZ()
    ensures PopCount(0x0E40) == PopCount(0x4C40) == PopCount(0x4E00) == PopCount(0x4640) == 4
    ensures PopCount(0x0C60) == PopCount(0x4C80) == PopCount(0xC600) == PopCount(0x2640) == 4
  {}

  // Every piece is four cells, however it is turned.
  lemma FourCells(t: nat, rot: nat)
    requires t < PIECES && rot < 4
    ensures Count(SHAPE[t][rot], 16) == 4
  {
    hide Count, PopCount;
    PopIJL(); PopOS(); PopTZ();
    CountIsPop(SHAPE[t][rot]);
  }

  // ----- The board --------------------------------------------------------------------

  // Rows of colours from the top; 0 is an empty cell.
  type Row = seq<int>
  type Board = seq<Row>

  ghost predicate Shaped(b: Board) { |b| == ROWS && forall r | 0 <= r < ROWS :: |b[r]| == COLS }

  // RGB565.
  function Rgb(r: nat, g: nat, b: nat): nat { r / 8 * 2048 + g / 4 * 32 + b / 8 }

  const COLOR: seq<nat> := [Rgb(80, 210, 230), Rgb(80, 120, 230), Rgb(235, 150, 60), Rgb(235, 215, 70),
                            Rgb(90, 210, 110), Rgb(190, 110, 220), Rgb(235, 90, 90)]

  datatype Piece = Piece(t: nat, rot: nat, px: int, py: int)

  predicate Real(p: Piece) { p.t < PIECES && p.rot < 4 }

  function Mask(p: Piece): bv16
    requires Real(p)
  {
    SHAPE[p.t][p.rot]
  }

  // Where cell i of the box is on the board.
  function X(p: Piece, i: nat): int { p.px + i % 4 }
  function Y(p: Piece, i: nat): int { p.py + i / 4 }

  predicate OnBoard(x: int, y: int) { 0 <= x < COLS && 0 <= y < ROWS }

  // Cell i of the piece is outside the well, or on a filled cell. Above the well is free.
  ghost predicate Hits(b: Board, p: Piece, i: nat)
    requires Shaped(b) && Real(p)
  {
    BitSet(Mask(p), i) && (X(p, i) < 0 || X(p, i) >= COLS || Y(p, i) >= ROWS
                           || (Y(p, i) >= 0 && b[Y(p, i)][X(p, i)] != 0))
  }

  ghost predicate Collides(b: Board, p: Piece)
    requires Shaped(b) && Real(p)
  {
    exists i | 0 <= i < 16 :: Hits(b, p, i)
  }

  // ----- Filled cells -------------------------------------------------------------------

  function RowCount(row: Row): nat {
    if row == [] then 0 else RowCount(row[..|row| - 1]) + One(row[|row| - 1] != 0)
  }

  function Filled(b: Board): nat {
    if b == [] then 0 else Filled(b[..|b| - 1]) + RowCount(b[|b| - 1])
  }

  predicate Full(row: Row) { forall c | 0 <= c < |row| :: row[c] != 0 }

  lemma {:induction false} RowPut(row: Row, x: nat, v: int)
    requires x < |row| && row[x] == 0 && v != 0
    ensures RowCount(row[x := v]) == RowCount(row) + 1
    decreases |row|
  {
    var n, put := |row| - 1, row[x := v];
    if x == n {
      assert put[..n] == row[..n];
    } else {
      RowPut(row[..n], x, v);
      assert put[..n] == row[..n][x := v];
    }
  }

  lemma {:induction false} FilledPut(b: Board, y: nat, row: Row)
    requires y < |b| && RowCount(row) == RowCount(b[y]) + 1
    ensures Filled(b[y := row]) == Filled(b) + 1
    decreases |b|
  {
    var n, put := |b| - 1, b[y := row];
    if y == n {
      assert put[..n] == b[..n];
    } else {
      FilledPut(b[..n], y, row);
      assert put[..n] == b[..n][y := row];
    }
  }

  lemma {:induction false} RowCountFull(row: Row)
    ensures RowCount(row) <= |row|
    ensures RowCount(row) == |row| <==> Full(row)
    decreases |row|
  {
    if row != [] {
      var n := |row| - 1;
      RowCountFull(row[..n]);
      assert row == row[..n] + [row[n]];
    }
  }

  // ----- Locking a piece ------------------------------------------------------------------

  function Put(b: Board, x: int, y: int, v: int): Board {
    if 0 <= y < |b| && 0 <= x < |b[y]| then b[y := b[y][x := v]] else b
  }

  // The board after the first n cells of the box.
  function Lay(b: Board, p: Piece, n: nat): Board
    requires Real(p)
  {
    if n == 0 then b
    else
      var was, i := Lay(b, p, n - 1), n - 1;
      if BitSet(Mask(p), i) && Y(p, i) >= 0 then Put(was, X(p, i), Y(p, i), COLOR[p.t]) else was
  }

  lemma Colours(t: nat)
    requires t < PIECES
    ensures COLOR[t] != 0
  {}

  // Is (x, y) a cell of the piece?
  predicate Covers(p: Piece, x: int, y: int)
    requires Real(p)
  {
    0 <= x - p.px < 4 && 0 <= y - p.py < 4 && CellSet(Mask(p), x - p.px, y - p.py)
  }

  lemma {:induction false} LayShaped(b: Board, p: Piece, n: nat)
    requires Shaped(b) && Real(p)
    ensures Shaped(Lay(b, p, n))
  {
    hide BitSet;
    if n > 0 { LayShaped(b, p, n - 1); }
  }

  // One board cell after the first n box cells.
  lemma {:induction false} LayCell(b: Board, p: Piece, n: nat, x: int, y: int)
    requires Shaped(b) && Real(p) && n <= 16 && OnBoard(x, y)
    ensures Shaped(Lay(b, p, n))
    ensures var i := 4 * (y - p.py) + (x - p.px);
      Lay(b, p, n)[y][x] == if Covers(p, x, y) && i < n then COLOR[p.t] else b[y][x]
  {
    hide BitSet;
    LayShaped(b, p, n);
    if n > 0 {
      LayShaped(b, p, n - 1);
      LayCell(b, p, n - 1, x, y);
      BoxIndex(p, n - 1, x, y);
    }
  }

  // A box cell has one place, and a place in the box one cell.
  lemma BoxIndex(p: Piece, i: nat, x: int, y: int)
    requires i < 16
    ensures X(p, i) == x && Y(p, i) == y <==>
            0 <= x - p.px < 4 && 0 <= y - p.py < 4 && i == 4 * (y - p.py) + (x - p.px)
  {}

  // The piece cells that are not above the well, among the first n of the box.
  function Visible(p: Piece, n: nat): nat
    requires Real(p)
  {
    if n == 0 then 0 else Visible(p, n - 1) + One(BitSet(Mask(p), n - 1) && Y(p, n - 1) >= 0)
  }

  lemma {:induction false} AllVisible(p: Piece, n: nat)
    requires Real(p) && p.py >= 0
    ensures Visible(p, n) == Count(Mask(p), n)
  {
    hide BitSet;
    if n > 0 { AllVisible(p, n - 1); }
  }

  // Locking a piece that collides with nothing fills one cell for each visible cell.
  lemma {:induction false} LayFills(b: Board, p: Piece, n: nat)
    requires Shaped(b) && Real(p) && !Collides(b, p) && n <= 16
    ensures Filled(Lay(b, p, n)) == Filled(b) + Visible(p, n)
  {
    hide BitSet, Filled, RowCount;
    if n > 0 {
      var i := n - 1;
      LayFills(b, p, i);
      LayShaped(b, p, i);
      var x, y := X(p, i), Y(p, i);
      if BitSet(Mask(p), i) && y >= 0 {
        assert !Hits(b, p, i);
        BoxIndex(p, i, x, y);
        LayCell(b, p, i, x, y);
        Colours(p.t);
        var was := Lay(b, p, i);
        RowPut(was[y], x, COLOR[p.t]);
        FilledPut(was, y, was[y][x := COLOR[p.t]]);
      }
    }
  }

  // ----- Clearing rows ----------------------------------------------------------------------

  const BLANK: Row := [0, 0, 0, 0, 0, 0, 0, 0, 0, 0]

  function Blanks(k: nat): Board { if k == 0 then [] else [BLANK] + Blanks(k - 1) }

  // The rows that are not full, in order.
  function NotFull(b: Board): (r: Board)
    ensures |r| <= |b|
  {
    if b == [] then [] else NotFull(b[..|b| - 1]) + if Full(b[|b| - 1]) then [] else [b[|b| - 1]]
  }

  function Cleared(b: Board): nat { |b| - |NotFull(b)| }

  // All full rows gone, the others dropped under as many blank ones.
  function Swept(b: Board): Board { Blanks(Cleared(b)) + NotFull(b) }

  lemma {:induction false} NotFullCat(a: Board, b: Board)
    ensures NotFull(a + b) == NotFull(a) + NotFull(b)
    decreases |b|
  {
    if b == [] {
      assert a + b == a;
    } else {
      var n := |b| - 1;
      assert (a + b)[..|a + b| - 1] == a + b[..n];
      NotFullCat(a, b[..n]);
    }
  }

  lemma {:induction false} FilledCat(a: Board, b: Board)
    ensures Filled(a + b) == Filled(a) + Filled(b)
    decreases |b|
  {
    hide RowCount;
    if b == [] {
      assert a + b == a;
    } else {
      var n := |b| - 1;
      assert (a + b)[..|a + b| - 1] == a + b[..n];
      FilledCat(a, b[..n]);
    }
  }

  lemma {:induction false} BlanksAre(k: nat)
    ensures |Blanks(k)| == k && Filled(Blanks(k)) == 0 && NotFull(Blanks(k)) == Blanks(k)
    ensures forall r | 0 <= r < k :: Blanks(k)[r] == BLANK
  {
    hide Filled, NotFull, Full, RowCount;
    OneBlank();
    if k > 0 {
      BlanksAre(k - 1);
      FilledCat([BLANK], Blanks(k - 1));
      NotFullCat([BLANK], Blanks(k - 1));
    }
  }

  lemma OneBlank()
    ensures Filled([BLANK]) == 0 && NotFull([BLANK]) == [BLANK] && |BLANK| == COLS
    ensures Filled([]) == 0 && NotFull([]) == []
  {
    var a: Row := [0, 0, 0, 0, 0];
    assert a + a == BLANK;
    RowCountNone(BLANK);
    assert [BLANK][..0] == [];
    assert BLANK[0] == 0;
  }

  lemma {:induction false} RowCountNone(row: Row)
    requires forall c | 0 <= c < |row| :: row[c] == 0
    ensures RowCount(row) == 0
    decreases |row|
  {
    if row != [] { RowCountNone(row[..|row| - 1]); }
  }

  // A full row is ten filled cells, and nothing else is lost.
  lemma {:induction false} NotFullFilled(b: Board)
    requires forall r | 0 <= r < |b| :: |b[r]| == COLS
    ensures Filled(NotFull(b)) + COLS * Cleared(b) == Filled(b)
    decreases |b|
  {
    hide RowCount, Full;
    if b != [] {
      var n := |b| - 1;
      NotFullFilled(b[..n]);
      RowCountFull(b[n]);
      FilledCat(NotFull(b[..n]), [b[n]]);
      FilledOne(b[n]);
      assert NotFull(b[..n]) + [] == NotFull(b[..n]);
      assert Filled(b) == Filled(b[..n]) + RowCount(b[n]);
    }
  }

  lemma FilledOne(row: Row)
    ensures Filled([row]) == RowCount(row)
  {
    assert [row][..0] == [];
    assert Filled([]) == 0;
  }

  lemma {:induction false} NotFullRows(b: Board)
    requires forall r | 0 <= r < |b| :: |b[r]| == COLS
    ensures forall r | 0 <= r < |NotFull(b)| :: |NotFull(b)[r]| == COLS && !Full(NotFull(b)[r])
    decreases |b|
  {
    hide Full;
    if b != [] { NotFullRows(b[..|b| - 1]); }
  }

  // What clearing does: a board of the same shape with no full row, and ten filled
  // cells fewer for each row cleared.
  lemma SweptIs(b: Board)
    requires Shaped(b)
    ensures var s := Swept(b);
      && Shaped(s) && (forall r | 0 <= r < ROWS :: !Full(s[r]))
      && Filled(s) + COLS * Cleared(b) == Filled(b)
      && (forall r | 0 <= r < Cleared(b) :: s[r] == BLANK)
  {
    hide Full, Filled, NotFull, Blanks;
    var k := Cleared(b);
    BlanksAre(k);
    OneBlank();
    BlankNotFull();
    NotFullRows(b);
    NotFullFilled(b);
    FilledCat(Blanks(k), NotFull(b));
  }

  lemma BlankNotFull()
    ensures !Full(BLANK)
  {
    assert BLANK[0] == 0;
  }

  // ----- The game -----------------------------------------------------------------------------

  datatype Game = Game(board: Board, piece: Piece, score: int, lines: int, locked: nat)

  function Spawn(t: nat): Piece { Piece(t, 0, COLS / 2 - 2, 0) }
  function NewGame(t: nat): Game { Game(Blanks(ROWS), Spawn(t), 0, 0, 0) }

  // A move, kept only if it collides with nothing.
  ghost function Try(g: Game, p: Piece): Game
    requires Shaped(g.board) && Real(p)
  {
    if Collides(g.board, p) then g else g.(piece := p)
  }

  // lock_piece: `locked` counts the pieces of this game.
  function Lock(g: Game): Game
    requires Real(g.piece)
  {
    var b := Lay(g.board, g.piece, 16);
    var k := Cleared(b);
    Game(Swept(b), g.piece, g.score + 10 * k, g.lines + k, g.locked + 1)
  }

  // The keys and the gravity tick; a tick carries the random pieces it may need.
  datatype Event = Left | Right | Up | Down | Tick(next: nat, again: nat)

  predicate Legal(e: Event) { e.Tick? ==> e.next < PIECES && e.again < PIECES }

  ghost function Play(g: Game, e: Event): Game
    requires Shaped(g.board) && Real(g.piece) && Legal(e)
  {
    var p := g.piece;
    match e
    case Left => Try(g, p.(px := p.px - 1))
    case Right => Try(g, p.(px := p.px + 1))
    case Up => Try(g, p.(rot := (p.rot + 1) % 4))
    case Down => Try(g, p.(py := p.py + 1))
    case Tick(next, again) =>
      if !Collides(g.board, p.(py := p.py + 1)) then g.(piece := p.(py := p.py + 1))
      else
        var r := Lock(g).(piece := Spawn(next));
        LockShaped(g);
        if Collides(r.board, r.piece) then NewGame(again) else r
  }

  lemma LockShaped(g: Game)
    requires Shaped(g.board) && Real(g.piece)
    ensures Shaped(Lock(g).board)
  {
    LayShaped(g.board, g.piece, 16);
    SweptIs(Lay(g.board, g.piece, 16));
  }

  // What holds whenever play goes on: the live piece is clear of everything, no row
  // is full, and the filled cells are four for each piece less ten for each line.
  ghost predicate Good(g: Game) {
    && Shaped(g.board) && Real(g.piece) && g.piece.py >= 0
    && !Collides(g.board, g.piece)
    && (forall r | 0 <= r < ROWS :: !Full(g.board[r]))
    && g.lines >= 0 && g.score == 10 * g.lines
    && Filled(g.board) + COLS * g.lines == 4 * g.locked
  }

  // Locking keeps the count and clears every full row.
  lemma LockKeeps(g: Game)
    requires Good(g)
    ensures var r := Lock(g);
      && Shaped(r.board) && (forall i | 0 <= i < ROWS :: !Full(r.board[i]))
      && r.lines >= 0 && r.score == 10 * r.lines
      && Filled(r.board) + COLS * r.lines == 4 * r.locked
  {
    hide Collides, Filled, Full, Lay, Swept, Cleared, Count, Visible;
    var b := Lay(g.board, g.piece, 16);
    LayShaped(g.board, g.piece, 16);
    LayFills(g.board, g.piece, 16);
    AllVisible(g.piece, 16);
    FourCells(g.piece.t, g.piece.rot);
    SweptIs(b);
  }

  lemma NewGameGood(t: nat)
    requires t < PIECES
    ensures Good(NewGame(t))
  {
    hide BitSet, Filled, Blanks;
    BlanksAre(ROWS);
    OneBlank();
    BlankNotFull();
    var g := NewGame(t);
    forall i | 0 <= i < 16 ensures !Hits(g.board, g.piece, i) {
      assert 0 <= X(g.piece, i) < COLS && 0 <= Y(g.piece, i) < ROWS;
      BlankCell(X(g.piece, i));
    }
  }

  lemma BlankCell(x: nat)
    requires x < COLS
    ensures BLANK[x] == 0
  {}

  lemma PlayKeeps(g: Game, e: Event)
    requires Good(g) && Legal(e)
    ensures Good(Play(g, e))
  {
    hide Collides, Filled, Full, Lock, NewGame;
    if e.Tick? {
      LockShaped(g);
      LockKeeps(g);
      NewGameGood(e.again);
      LockPiece(g);
    }
  }

  lemma LockPiece(g: Game)
    requires Shaped(g.board) && Real(g.piece)
    ensures Lock(g).piece == g.piece
  {}

  ghost predicate LegalAll(es: seq<Event>) {
    forall i | 0 <= i < |es| :: Legal(es[i])
  }

  ghost function After(g: Game, es: seq<Event>): Game
    requires Good(g) && LegalAll(es)
    decreases |es|
  {
    if es == [] then g
    else
      PlayKeeps(g, es[0]);
      LegalRest(es);
      After(Play(g, es[0]), es[1..])
  }

  lemma LegalRest(es: seq<Event>)
    requires es != [] && LegalAll(es)
    ensures LegalAll(es[1..])
  {
    forall i | 0 <= i < |es| - 1 ensures Legal(es[1..][i]) { assert es[1..][i] == es[i + 1]; }
  }

  // In every state of every game the live piece collides with nothing, no full row is
  // left standing, and cells, lines and score add up.
  lemma {:induction false} EveryGame(t: nat, es: seq<Event>)
    requires t < PIECES && LegalAll(es)
    ensures Good(NewGame(t)) && Good(After(NewGame(t), es))
  {
    NewGameGood(t);
    StaysGood(NewGame(t), es);
  }

  lemma {:induction false} StaysGood(g: Game, es: seq<Event>)
    requires Good(g) && LegalAll(es)
    ensures Good(After(g, es))
    decreases |es|
  {
    hide Play, Collides, Filled, Full;
    if es != [] {
      PlayKeeps(g, es[0]);
      LegalRest(es);
      StaysGood(Play(g, es[0]), es[1..]);
    }
  }
}
