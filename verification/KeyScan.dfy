// The scan loop's own code (apps/system/kb_iomatrix/kb_iomatrix.c): modifiers and
// the previous matrix updated in place, events injected in order, refining Modifiers.

module KeyScan {
  import opened Modifiers

  // The four modifiers after each stage of a scan.
  function Stepped(b: Board, s: State, cur: Matrix): seq<Modifier>
    requires Valid(b, s) && Sized(cur)
  {
    seq(NMODS, i requires 0 <= i < NMODS => StepMod(s.mods[i], b.modes[i], Phys(cur, i)))
  }

  function Ready(b: Board, s: State, cur: Matrix): seq<Modifier>
    requires Valid(b, s) && Sized(cur)
  {
    seq(NMODS, i requires 0 <= i < NMODS => AtKeys(s.mods[i], b.modes[i], Phys(cur, i), i))
  }

  function Used(ms: seq<Modifier>, pressed: bool): seq<Modifier> {
    seq(|ms|, i requires 0 <= i < |ms| => UseMod(ms[i], pressed))
  }

  class Scanner {
    const board: Board
    const mods: array<Modifier>
    const prev: array2<bool>
    var injected: seq<Event>

    ghost predicate Sound() {
      && |board.modes| == NMODS && Mapped(board.keys) && mods.Length == NMODS
      && prev.Length0 == ROWS && prev.Length1 == COLS
    }

    ghost function Grid(): (m: Matrix)
      requires Sound()
      reads prev
      ensures Sized(m)
    {
      seq(ROWS, r requires 0 <= r < ROWS && Sound() reads prev =>
        seq(COLS, c requires 0 <= c < COLS && 0 <= r < ROWS && Sound() reads prev => prev[r, c]))
    }

    ghost function State(): (s: Modifiers.State)
      requires Sound()
      reads mods, prev
      ensures Valid(board, s)
    {
      Modifiers.State(mods[..], Grid())
    }

    constructor (board: Board)
      requires |board.modes| == NMODS && Mapped(board.keys)
      ensures Sound() && this.board == board && State() == Start() && injected == []
      ensures fresh(mods) && fresh(prev)
    {
      this.board, injected := board, [];
      mods := new Modifier[NMODS](i => OFF);
      prev := new bool[ROWS, COLS]((r, c) => false);
      new;
      assert mods[..] == [OFF, OFF, OFF, OFF];
      ghost var g, p := Grid(), Start().prev;
      assert forall r | 0 <= r < ROWS :: g[r] == p[r];
    }

    // mod_step for each modifier; `edge` says which physical level changed.
    method StepMods(cur: Matrix) returns (edge: seq<bool>)
      requires Sound() && Sized(cur)
      modifies mods
      ensures mods[..] == Stepped(board, old(State()), cur)
      ensures |edge| == NMODS && forall k | 0 <= k < NMODS :: edge[k] == (Phys(cur, k) != old(mods[k].down))
    {
      hide Mapped, Sized, Phys;
      edge := [];
      var i := 0;
      while i < NMODS
        invariant i <= NMODS && |edge| == i
        invariant forall k | i <= k < NMODS :: mods[k] == old(mods[k])
        invariant forall k | 0 <= k < i :: mods[k] == StepMod(old(mods[k]), board.modes[k], Phys(cur, k))
        invariant forall k | 0 <= k < i :: edge[k] == (Phys(cur, k) != old(mods[k].down))
      {
        var phys, m := Phys(cur, i), mods[i];
        edge := edge + [phys != m.down];
        if phys && !m.down {
          mods[i] := m.(down := true, used := false);
        } else if !phys && m.down {
          m := m.(down := false);
          if board.modes[i] != Momentary && !m.used { m := m.(latch := !m.latch); }
          mods[i] := m;
        }
        i := i + 1;
      }
    }

    method ResolveLayer(ghost s: Modifiers.State, cur: Matrix) returns (layer: nat)
      requires Sound() && Sized(cur) && Valid(board, s) && mods[..] == Stepped(board, s, cur)
      ensures layer == Layer(board, s, cur)
    {
      layer := 0;
      var i := 0;
      while i < NMODS
        invariant i <= NMODS
        invariant i <= FN ==> layer == 0
        invariant i > FN ==> layer == if Phys(cur, FN) || mods[FN].latch then 2
                                      else if i > SHIFT && (Phys(cur, SHIFT) || mods[SHIFT].latch) then 1 else 0
      {
        if i == FN || i == SHIFT {
          var own := if i == FN then 2 else 1;
          if (Phys(cur, i) || mods[i].latch) && own > layer { layer := own; }
        }
        i := i + 1;
      }
      assert mods[FN] == Stepped(board, s, cur)[FN] && mods[SHIFT] == Stepped(board, s, cur)[SHIFT];
    }

    // What one modifier sends before the keys; `m` is what it was before its step.
    method Announce(ghost m: Modifier, i: nat, phys: bool, edge: bool)
      requires Sound() && i < NMODS && edge == (phys != m.down) && mods[i] == StepMod(m, board.modes[i], phys)
      modifies mods, `injected
      ensures mods[..] == old(mods[..])[i := AtKeys(m, board.modes[i], phys, i)]
      ensures injected == old(injected) + Pre(m, board.modes[i], phys, i)
    {
      hide StepMod, Mapped;
      var active := phys || mods[i].latch;
      if Held(i) {
        if active != mods[i].sent {
          injected := injected + [Mod(i, active)];
          mods[i] := mods[i].(sent := active);
        }
      } else if edge {
        injected := injected + [Mod(i, phys)];
      }
    }

    // The events before the keys.
    method SendBefore(ghost s: Modifiers.State, cur: Matrix, edge: seq<bool>)
      requires Sound() && Sized(cur) && Valid(board, s) && mods[..] == Stepped(board, s, cur)
      requires |edge| == NMODS && forall k | 0 <= k < NMODS :: edge[k] == (Phys(cur, k) != s.mods[k].down)
      modifies mods, `injected
      ensures mods[..] == Ready(board, s, cur)
      ensures injected == old(injected) + PreAll(board, s, cur, NMODS)
    {
      hide Mapped, Sized, Phys, StepMod, AtKeys, Pre;
      var i := 0;
      ghost var stepped, was := Stepped(board, s, cur), injected;
      assert injected == was + PreAll(board, s, cur, 0);
      while i < NMODS
        invariant i <= NMODS && injected == was + PreAll(board, s, cur, i)
        invariant forall k | i <= k < NMODS :: mods[k] == stepped[k]
        invariant forall k | 0 <= k < i :: mods[k] == AtKeys(s.mods[k], board.modes[k], Phys(cur, k), k)
      {
        ghost var before := mods[..];
        Announce(s.mods[i], i, Phys(cur, i), edge[i]);
        assert forall k | 0 <= k < NMODS && k != i :: mods[..][k] == before[k];
        assert mods[..][i] == AtKeys(s.mods[i], board.modes[i], Phys(cur, i), i);
        i := i + 1;
      }
    }

    // A key press uses every modifier that is down.
    method MarkUsed()
      requires Sound()
      modifies mods
      ensures mods[..] == Used(old(mods[..]), true)
    {
      var i := 0;
      while i < NMODS
        invariant i <= NMODS
        invariant forall k | 0 <= k < NMODS :: mods[k] == if k < i then UseMod(old(mods[k]), true) else old(mods[k])
      {
        if mods[i].down { mods[i] := mods[i].(used := true); }
        i := i + 1;
      }
    }

    // The ordinary keys, row by row.
    method ScanKeys(cur: Matrix, layer: nat) returns (pressed: bool)
      requires Sound() && Sized(cur) && layer < 3
      modifies mods, prev, `injected
      ensures Grid() == PrevAfter(old(Grid()), cur)
      ensures var es := KeyEvents(board.keys, old(Grid()), cur, layer, KEYS);
        && injected == old(injected) + es && pressed == AnyPress(es) && mods[..] == Used(old(mods[..]), pressed)
    {
      hide Code, AnyPress, KeyEvents;
      pressed := false;
      ghost var grid, ms, was := Grid(), mods[..], injected;
      NoKeys(board.keys, grid, cur, layer);
      assert ms == Used(ms, false);
      var r := 0;
      while r < ROWS
        invariant r <= ROWS && Scanned(grid, cur, r * COLS)
        invariant Done(ms, was, KeyEvents(board.keys, grid, cur, layer, r * COLS), pressed)
      {
        var c := 0;
        while c < COLS
          invariant c <= COLS && Scanned(grid, cur, r * COLS + c)
          invariant Done(ms, was, KeyEvents(board.keys, grid, cur, layer, r * COLS + c), pressed)
        {
          pressed := ScanKey(ms, was, grid, cur, layer, r, c, pressed);
          c := c + 1;
        }
        r := r + 1;
      }
      ScannedGrid(grid, cur);
    }

    // The first n keys have their new levels.
    ghost predicate Scanned(grid: Matrix, cur: Matrix, n: nat)
      requires Sound() && Sized(grid) && Sized(cur)
      reads prev
    {
      forall r, c | 0 <= r < ROWS && 0 <= c < COLS ::
        prev[r, c] == if r * COLS + c < n && !IsModPos(r, c) then cur[r][c] else grid[r][c]
    }

    lemma ScannedGrid(grid: Matrix, cur: Matrix)
      requires Sound() && Sized(grid) && Sized(cur) && Scanned(grid, cur, KEYS)
      ensures Grid() == PrevAfter(grid, cur)
    {
      var g, p := Grid(), PrevAfter(grid, cur);
      forall r | 0 <= r < ROWS ensures g[r] == p[r] {
        forall c | 0 <= c < COLS ensures g[r][c] == p[r][c] {
          assert g[r][c] == prev[r, c];
        }
      }
    }

    // After the key events `es`.
    ghost predicate Done(ms: seq<Modifier>, was: seq<Event>, es: seq<Event>, pressed: bool)
      requires Sound()
      reads this, mods
    {
      injected == was + es && pressed == AnyPress(es) && mods[..] == Used(ms, pressed)
    }

    method ScanKey(ghost ms: seq<Modifier>, ghost was: seq<Event>, ghost grid: Matrix,
                   cur: Matrix, layer: nat, r: nat, c: nat, pressed: bool)
      returns (pressed': bool)
      requires Sound() && Sized(cur) && Sized(grid) && layer < 3 && r < ROWS && c < COLS
      requires Scanned(grid, cur, r * COLS + c)
      requires Done(ms, was, KeyEvents(board.keys, grid, cur, layer, r * COLS + c), pressed)
      modifies mods, prev, `injected
      ensures Scanned(grid, cur, r * COLS + c + 1)
      ensures Done(ms, was, KeyEvents(board.keys, grid, cur, layer, r * COLS + c + 1), pressed')
    {
      hide AnyPress, KeyEvents;
      pressed' := pressed;
      NextKey(board.keys, grid, cur, layer, r, c);
      if !IsModPos(r, c) && cur[r][c] != prev[r, c] {
        prev[r, c] := cur[r][c];
        var code := board.keys[r][c][layer];
        if code == 0 && layer > 0 { code := board.keys[r][c][0]; }
        if code != 0 {
          if cur[r][c] {
            pressed' := true;
            MarkUsed();
          }
          injected := injected + [Key(r, c, code, cur[r][c])];
        }
      }
    }

    // The one-shot latches that are not held go out.
    method ClearOneshots(ghost s: Modifiers.State, cur: Matrix) returns (changed: bool)
      requires Sound() && Sized(cur) && Valid(board, s) && mods[..] == Used(Ready(board, s, cur), true)
      modifies mods
      ensures mods[..] == Spent(board, s, cur)
      ensures changed <==> exists k | 0 <= k < NMODS :: mods[k] != old(mods[k])
    {
      hide Mapped, Sized, Phys, AtKeys;
      changed := false;
      var i := 0;
      ghost var was := mods[..];
      while i < NMODS
        invariant i <= NMODS && (changed <==> exists k | 0 <= k < i :: mods[k] != was[k])
        invariant forall k | 0 <= k < NMODS ::
          mods[k] == if k < i then ClearMod(was[k], board.modes[k], Phys(cur, k), true) else was[k]
      {
        if board.modes[i] == Oneshot && mods[i].latch && !Phys(cur, i) {
          mods[i] := mods[i].(latch := false);
          changed := true;
          assert mods[i] != was[i];
        }
        i := i + 1;
      }
    }

    // The events after the keys.
    method SendAfter(ghost s: Modifiers.State, cur: Matrix)
      requires Sound() && Sized(cur) && Valid(board, s) && mods[..] == Spent(board, s, cur)
      modifies mods, `injected
      ensures mods[..] == Ended(board, s, cur, true)
      ensures injected == old(injected) + PostAll(board, s, cur, true, NMODS)
    {
      hide Mapped, Sized, Phys, AtKeys, AfterScan, Post;
      var i := 0;
      ghost var spent, was := Spent(board, s, cur), injected;
      assert injected == was + PostAll(board, s, cur, true, 0);
      while i < NMODS
        invariant i <= NMODS && injected == was + PostAll(board, s, cur, true, i)
        invariant forall k | i <= k < NMODS :: mods[k] == spent[k]
        invariant forall k | 0 <= k < i :: mods[k] == AfterScan(s.mods[k], board.modes[k], Phys(cur, k), true, k)
      {
        ghost var before := mods[..];
        Settle(s.mods[i], i, Phys(cur, i));
        assert forall k | 0 <= k < NMODS && k != i :: mods[..][k] == before[k];
        assert mods[..][i] == AfterScan(s.mods[i], board.modes[i], Phys(cur, i), true, i);
        i := i + 1;
      }
    }

    // What one modifier sends after the keys; `m` is what it was before the scan.
    method Settle(ghost m: Modifier, i: nat, phys: bool)
      requires Sound() && i < NMODS
      requires mods[i] == ClearMod(UseMod(AtKeys(m, board.modes[i], phys, i), true), board.modes[i], phys, true)
      modifies mods, `injected
      ensures mods[..] == old(mods[..])[i := AfterScan(m, board.modes[i], phys, true, i)]
      ensures injected == old(injected) + Post(m, board.modes[i], phys, true, i)
    {
      hide AtKeys, Mapped;
      if Held(i) {
        var active := phys || mods[i].latch;
        if active != mods[i].sent {
          injected := injected + [Mod(i, active)];
          mods[i] := mods[i].(sent := active);
        }
      }
    }

    // One turn of the scan loop.
    method ScanOnce(cur: Matrix)
      requires Sound() && Sized(cur)
      modifies mods, prev, `injected
      ensures State() == Scan(board, old(State()), cur)
      ensures injected == old(injected) + Emitted(board, old(State()), cur)
    {
      hide Mapped, Sized, Stepped, Ready, Used, Spent, Ended, PreAll, PostAll, KeyEvents, AnyPress, Layer, PrevAfter;
      hide Phys, AfterScan, Grid;
      ghost var s := State();
      var edge := StepMods(cur);
      var layer := ResolveLayer(s, cur);
      SendBefore(s, cur, edge);
      var pressed := ScanKeys(cur, layer);
      if pressed {
        var changed := ClearOneshots(s, cur);
        if changed { SendAfter(s, cur); } else { NothingSpent(board, s, cur); }
      } else {
        NothingPressed(board, s, cur);
      }
      ScanIs(board, s, cur);
    }
  }

  // The modifiers after one-shots are cleared, and at the end of the scan.
  function Spent(b: Board, s: State, cur: Matrix): seq<Modifier>
    requires Valid(b, s) && Sized(cur)
  {
    seq(NMODS, i requires 0 <= i < NMODS =>
      ClearMod(UseMod(AtKeys(s.mods[i], b.modes[i], Phys(cur, i), i), true), b.modes[i], Phys(cur, i), true))
  }

  function Ended(b: Board, s: State, cur: Matrix, pressed: bool): seq<Modifier>
    requires Valid(b, s) && Sized(cur)
  {
    seq(NMODS, i requires 0 <= i < NMODS => AfterScan(s.mods[i], b.modes[i], Phys(cur, i), pressed, i))
  }

  // Without a key press, or without a latch to clear, nothing follows the keys.
  lemma {:induction false} NoPost(b: Board, s: State, cur: Matrix, pressed: bool, n: nat)
    requires Valid(b, s) && Sized(cur) && n <= NMODS
    requires forall i | 0 <= i < n :: Post(s.mods[i], b.modes[i], Phys(cur, i), pressed, i) == []
    ensures PostAll(b, s, cur, pressed, n) == []
  {
    hide Post, Phys, Mapped, Sized;
    if n > 0 { NoPost(b, s, cur, pressed, n - 1); }
  }

  lemma NothingPressed(b: Board, s: State, cur: Matrix)
    requires Valid(b, s) && Sized(cur)
    ensures PostAll(b, s, cur, false, NMODS) == []
    ensures Used(Ready(b, s, cur), false) == Ended(b, s, cur, false)
  {
    hide Phys, Mapped, Sized, StepMod;
    NoPost(b, s, cur, false, NMODS);
  }

  lemma NothingSpent(b: Board, s: State, cur: Matrix)
    requires Valid(b, s) && Sized(cur) && Spent(b, s, cur) == Used(Ready(b, s, cur), true)
    ensures PostAll(b, s, cur, true, NMODS) == []
    ensures Spent(b, s, cur) == Ended(b, s, cur, true)
  {
    hide Phys, Mapped, Sized, StepMod;
    var a, u := Spent(b, s, cur), Used(Ready(b, s, cur), true);
    forall i | 0 <= i < NMODS
      ensures Post(s.mods[i], b.modes[i], Phys(cur, i), true, i) == []
      ensures a[i] == AfterScan(s.mods[i], b.modes[i], Phys(cur, i), true, i) {
      assert a[i] == u[i];
    }
    NoPost(b, s, cur, true, NMODS);
  }

  lemma ScanIs(b: Board, s: State, cur: Matrix)
    requires Valid(b, s) && Sized(cur)
    ensures var pressed := AnyPress(Keyed(b, s, cur));
      Scan(b, s, cur) == State(Ended(b, s, cur, pressed), PrevAfter(s.prev, cur))
  {
    hide Keyed, Mapped, Sized, AfterScan, Phys, PrevAfter;
  }

  lemma NoKeys(k: Keymap, grid: Matrix, cur: Matrix, layer: nat)
    requires Mapped(k) && Sized(grid) && Sized(cur) && layer < 3
    ensures KeyEvents(k, grid, cur, layer, 0) == [] && !AnyPress([])
  {}

  lemma NextKey(k: Keymap, grid: Matrix, cur: Matrix, layer: nat, r: nat, c: nat)
    requires Mapped(k) && Sized(grid) && Sized(cur) && layer < 3 && r < ROWS && c < COLS
    ensures r * COLS + c < KEYS
    ensures var es, next := KeyEvents(k, grid, cur, layer, r * COLS + c), KeyAt(k, grid, cur, layer, r, c);
      && KeyEvents(k, grid, cur, layer, r * COLS + c + 1) == es + next
      && AnyPress(es + next) == (AnyPress(es) || (next != [] && cur[r][c]))
  {
    hide AnyPress, Code, Mapped, Sized, IsModPos;
    var es, next := KeyEvents(k, grid, cur, layer, r * COLS + c), KeyAt(k, grid, cur, layer, r, c);
    if next == [] { assert es + next == es; } else { PressCat(es, next[0]); }
  }

  lemma PressCat(es: seq<Event>, e: Event)
    ensures AnyPress(es + [e]) == (AnyPress(es) || (e.Key? && e.press))
  {
    var a := es + [e];
    if AnyPress(es) {
      var j :| 0 <= j < |es| && es[j].Key? && es[j].press;
      assert a[j] == es[j];
    }
    if e.Key? && e.press { assert a[|es|] == e; }
  }
}
