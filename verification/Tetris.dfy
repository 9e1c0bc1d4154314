// The falling-block game's own code (apps/user/tetris/tetris.c): a board whose
// rows are moved down in place, refining the game of TetrisRules.

module Tetris {
  import opened TetrisRules

  // ----- The clearing loop, on values ---------------------------------------------------

  // The loop works from the bottom up: nothing below `r` is full, and the rows still
  // standing are `j` blank ones over those of the first board.
  ghost predicate Sweeping(first: Board, b: Board, j: nat, r: int) {
    && Shaped(b) && -1 <= r < ROWS
    && (forall i | r < i < ROWS :: !Full(b[i]))
    && NotFull(b) == Blanks(j) + NotFull(first)
  }

  // The rows above `r` move down one, over it, and the top one is blanked.
  function Dropped(b: Board, r: nat): Board
    requires r < |b|
  {
    [BLANK] + b[..r] + b[r + 1..]
  }

  lemma DroppedAt(b: Board, s: Board, r: nat)
    requires |s| == |b| && r < |b| && s[0] == BLANK
    requires forall i | 0 < i <= r :: s[i] == b[i - 1]
    requires forall i | r < i < |b| :: s[i] == b[i]
    ensures s == Dropped(b, r)
  {}

  lemma DropStep(first: Board, b: Board, j: nat, r: nat)
    requires Sweeping(first, b, j, r) && r < ROWS && Full(b[r])
    ensures Sweeping(first, Dropped(b, r), j + 1, r)
    ensures Cleared(Dropped(b, r)) < Cleared(b)
  {
    hide Full;
    var s := Dropped(b, r);
    OneBlank();
    DropNotFull(b, r);
    assert Blanks(j + 1) + NotFull(first) == [BLANK] + (Blanks(j) + NotFull(first));
    forall i | r < i < ROWS ensures !Full(s[i]) { assert s[i] == b[i]; }
  }

  lemma DropNotFull(b: Board, r: nat)
    requires r < |b| && Full(b[r])
    ensures NotFull(Dropped(b, r)) == [BLANK] + NotFull(b)
  {
    hide NotFull, Full;
    var up, at, below := b[..r], [b[r]], b[r + 1..];
    assert b == up + at + below;
    NotFullCat(up + at, below);
    NotFullCat(up, at);
    NotFullCat([BLANK] + up, below);
    NotFullCat([BLANK], up);
    OneBlank();
    FullGone(b[r]);
    assert NotFull(up) + [] == NotFull(up);
    assert [BLANK] + NotFull(up) + NotFull(below) == [BLANK] + (NotFull(up) + NotFull(below));
  }

  lemma FullGone(row: Row)
    requires Full(row)
    ensures NotFull([row]) == []
  {
    assert [row][..0] == [];
    assert NotFull([]) == [];
  }

  lemma {:induction false} NoneFull(b: Board)
    requires forall i | 0 <= i < |b| :: !Full(b[i])
    ensures NotFull(b) == b
    decreases |b|
  {
    hide Full;
    if b != [] { NoneFull(b[..|b| - 1]); }
  }

  // When the loop is done, the board is the swept one and `j` rows were cleared.
  lemma SweepDone(first: Board, b: Board, j: nat)
    requires Shaped(first) && Sweeping(first, b, j, -1)
    ensures b == Swept(first) && j == Cleared(first)
  {
    hide NotFull, Full, Blanks;
    NoneFull(b);
    BlanksAre(j);
  }

  // ----- The program ----------------------------------------------------------------------

  class Tetris {
    const board: array<Row>
    var t: nat
    var rot: nat
    var px: int
    var py: int
    var score: int
    var lines: int
    ghost var locked: nat

    ghost predicate Valid()
      reads this, board
    {
      board.Length == ROWS && Shaped(board[..]) && Real(Live())
    }

    function Live(): Piece
      reads this
    {
      Piece(t, rot, px, py)
    }

    ghost function State(): Game
      reads this, board
    {
      Game(board[..], Live(), score, lines, locked)
    }

    constructor (next: nat)
      requires next < PIECES
      ensures Valid() && fresh(board) && State() == NewGame(next)
    {
      board := new Row[ROWS](r => BLANK);
      t, rot, px, py := next, 0, COLS / 2 - 2, 0;
      score, lines, locked := 0, 0, 0;
      new;
      AllBlank(board[..]);
      BlanksAre(ROWS);
    }

    method Collide(p: Piece) returns (hit: bool)
      requires Valid() && Real(p)
      ensures hit <==> Collides(board[..], p)
    {
      hide BitSet;
      var y := 0;
      while y < 4
        invariant y <= 4 && forall k | 0 <= k < 4 * y :: !Hits(board[..], p, k)
      {
        var x := 0;
        while x < 4
          invariant x <= 4 && forall k | 0 <= k < 4 * y + x :: !Hits(board[..], p, k)
        {
          BoxIndex(p, 4 * y + x, p.px + x, p.py + y);
          if CellSet(Mask(p), x, y) {
            var cx, cy := p.px + x, p.py + y;
            if cx < 0 || cx >= COLS || cy >= ROWS || (cy >= 0 && board[cy][cx] != 0) {
              assert Hits(board[..], p, 4 * y + x);
              return true;
            }
          }
          x := x + 1;
        }
        y := y + 1;
      }
      hit := false;
    }

    // The first half of lock_piece: the piece becomes part of the board.
    method LayPiece()
      requires Valid() && !Collides(board[..], Live())
      modifies board
      ensures Valid() && board[..] == Lay(old(board[..]), Live(), 16)
    {
      hide BitSet, Collides;
      ghost var b, p := board[..], Live();
      var y := 0;
      while y < 4
        invariant y <= 4 && Shaped(board[..]) && board[..] == Lay(b, p, 4 * y)
      {
        var x := 0;
        while x < 4
          invariant x <= 4 && Shaped(board[..]) && board[..] == Lay(b, p, 4 * y + x)
        {
          ghost var i := 4 * y + x;
          BoxIndex(p, i, px + x, py + y);
          FitsAt(b, p, i);
          LayShaped(b, p, i + 1);
          if CellSet(Mask(Live()), x, y) && py + y >= 0 {
            board[py + y] := board[py + y][px + x := COLOR[t]];
          }
          x := x + 1;
        }
        y := y + 1;
      }
    }

    method RowFull(r: nat) returns (full: bool)
      requires Valid() && r < ROWS
      ensures full == Full(board[r])
    {
      var c := 0;
      while c < COLS
        invariant c <= COLS && forall k | 0 <= k < c :: board[r][k] != 0
      {
        if board[r][c] == 0 { return false; }
        c := c + 1;
      }
      full := true;
    }

    // Row by row, from `r` up, each row is overwritten by the one above it.
    method DropRows(r: nat)
      requires Valid() && r < ROWS
      modifies board
      ensures board[..] == Dropped(old(board[..]), r)
    {
      ghost var b := board[..];
      var k := r;
      while k > 0
        invariant 0 <= k <= r
        invariant forall i | k < i <= r :: board[i] == b[i - 1]
        invariant forall i | 0 <= i < ROWS && !(k < i <= r) :: board[i] == b[i]
      {
        assert board[k - 1] == b[k - 1];
        board[k] := board[k - 1];
        k := k - 1;
      }
      board[0] := BLANK;
      DroppedAt(b, board[..], r);
    }

    // The second half: from the bottom row up, a full row is dropped out and its
    // place looked at again.
    method Sweep()
      requires Valid()
      modifies this`lines, this`score, board
      ensures Valid() && board[..] == Swept(old(board[..]))
      ensures var k := Cleared(old(board[..])); lines == old(lines) + k && score == old(score) + 10 * k
    {
      hide Sweeping, Full, Swept, Cleared, Dropped;
      ghost var first, j := board[..], 0;
      var r := ROWS - 1;
      SweepStart(first);
      while r >= 0
        invariant board.Length == ROWS && Real(Live()) && Sweeping(first, board[..], j, r)
        invariant lines == old(lines) + j && score == old(score) + 10 * j
        decreases r + 1, Cleared(board[..])
      {
        SweepShaped(first, board[..], j, r);
        var full := RowFull(r);
        if full {
          DropStep(first, board[..], j, r);
          DropRows(r);
          lines, score, j := lines + 1, score + 10, j + 1;
          r := r + 1;
        } else {
          PassRow(first, board[..], j, r);
        }
        r := r - 1;
      }
      SweepShaped(first, board[..], j, r);
      SweepDone(first, board[..], j);
    }

    method LockPiece()
      requires Valid() && !Collides(board[..], Live())
      modifies this`lines, this`score, this`locked, board
      ensures Valid() && State() == Lock(old(State()))
    {
      hide Collides, Lay, Swept, Cleared;
      LayPiece();
      Sweep();
      locked := locked + 1;
    }

    method SpawnPiece(next: nat)
      requires Valid() && next < PIECES
      modifies this`t, this`rot, this`px, this`py
      ensures Valid() && State() == old(State()).(piece := Spawn(next))
    {
      t, rot, px, py := next, 0, COLS / 2 - 2, 0;
    }

    method Reset(next: nat)
      requires Valid() && next < PIECES
      modifies this, board
      ensures Valid() && State() == NewGame(next)
    {
      var r := 0;
      while r < ROWS
        invariant r <= ROWS && Valid() && forall i | 0 <= i < r :: board[i] == BLANK
      {
        board[r] := BLANK;
        r := r + 1;
      }
      score, lines, locked := 0, 0, 0;
      SpawnPiece(next);
      AllBlank(board[..]);
    }

    // Down a row, or lock and respawn; false is the end of the game.
    method Gravity(next: nat) returns (ok: bool)
      requires Valid() && next < PIECES && !Collides(board[..], Live())
      modifies this, board
      ensures Valid() && State() == Fall(old(State()), next)
      ensures !ok == Collides(board[..], Live())
    {
      hide Collides, Lock;
      var under := Piece(t, rot, px, py + 1);
      var hit := Collide(under);
      if !hit {
        py := py + 1;
        return true;
      }
      LockPiece();
      SpawnPiece(next);
      hit := Collide(Live());
      ok := !hit;
    }

    // One turn of the main loop.
    method Turn(e: Event)
      requires Valid() && Legal(e) && !Collides(board[..], Live())
      modifies this, board
      ensures Valid() && State() == Play(old(State()), e)
    {
      hide Collides, Lock, NewGame, Spawn;
      match e {
        case Left =>
          var hit := Collide(Piece(t, rot, px - 1, py));
          if !hit { px := px - 1; }
        case Right =>
          var hit := Collide(Piece(t, rot, px + 1, py));
          if !hit { px := px + 1; }
        case Up =>
          var nr := (rot + 1) % 4;
          var hit := Collide(Piece(t, nr, px, py));
          if !hit { rot := nr; }
        case Down =>
          var hit := Collide(Piece(t, rot, px, py + 1));
          if !hit { py := py + 1; }
        case Tick(next, again) =>
          var ok := Gravity(next);
          if !ok { Reset(again); }
      }
    }
  }

  // gravity on the game: a lower piece, or the next one over the locked board.
  ghost function Fall(g: Game, next: nat): Game
    requires Shaped(g.board) && Real(g.piece)
  {
    var under := g.piece.(py := g.piece.py + 1);
    if !Collides(g.board, under) then g.(piece := under) else Lock(g).(piece := Spawn(next))
  }

  lemma AllBlank(b: Board)
    requires |b| == ROWS && forall i | 0 <= i < ROWS :: b[i] == BLANK
    ensures b == Blanks(ROWS)
  {
    BlanksAre(ROWS);
  }

  // A set cell of a piece that collides with nothing is on the board, or above it.
  lemma FitsAt(b: Board, p: Piece, i: nat)
    requires Shaped(b) && Real(p) && !Collides(b, p) && i < 16
    ensures BitSet(Mask(p), i) ==> 0 <= X(p, i) < COLS && Y(p, i) < ROWS
  {
    assert !Hits(b, p, i);
  }

  lemma SweepStart(b: Board)
    requires Shaped(b)
    ensures Sweeping(b, b, 0, ROWS - 1)
  {
    assert Blanks(0) + NotFull(b) == NotFull(b);
  }

  lemma SweepShaped(first: Board, b: Board, j: nat, r: int)
    requires Sweeping(first, b, j, r)
    ensures Shaped(b) && -1 <= r < ROWS
  {}

  lemma PassRow(first: Board, b: Board, j: nat, r: nat)
    requires Sweeping(first, b, j, r) && r < ROWS && !Full(b[r])
    ensures Sweeping(first, b, j, r - 1)
  {}
}
