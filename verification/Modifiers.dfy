// Sticky modifiers of the matrix keyboard (apps/system/kb_iomatrix/kb_iomatrix.c):
// what one scan of the matrix does to the four modifiers and which events it
// injects, and what holds over every run of scans.

module Modifiers {

  const ROWS := 4
  const COLS := 14
  const KEYS := 56

  // The modifiers: Fn and Shift select a layer, Ctrl and Alt are held events.
  const NMODS := 4
  const FN := 0
  const SHIFT := 1
  const CTRL := 2
  const ALT := 3
  const MOD_ROW: seq<nat> := [2, 2, 3, 3]
  const MOD_COL: seq<nat> := [0, 1, 0, 2]

  predicate Held(i: nat) { i == CTRL || i == ALT }

  datatype Mode = Momentary | Toggle | Oneshot

  // `down` and `used` follow the current hold; `sent` is the last event injected.
  datatype Modifier = Modifier(down: bool, used: bool, latch: bool, sent: bool)

  type Matrix = seq<seq<bool>>
  predicate Sized(m: Matrix) { |m| == ROWS && forall r | 0 <= r < ROWS :: |m[r]| == COLS }

  // The keymap: a code for each key in each of three layers, 0 for none.
  type Keymap = seq<seq<seq<nat>>>
  predicate Mapped(k: Keymap) {
    && |k| == ROWS
    && forall r | 0 <= r < ROWS :: |k[r]| == COLS && forall c | 0 <= c < COLS :: |k[r][c]| == 3
  }

  datatype Event = Mod(i: nat, press: bool) | Key(row: nat, col: nat, code: nat, press: bool)

  // ----- One modifier in one scan ------------------------------------------------------

  // mod_step: a tap is a press and a release with no other key between.
  function StepMod(m: Modifier, mode: Mode, phys: bool): Modifier {
    if phys && !m.down then m.(down := true, used := false)
    else if !phys && m.down then m.(down := false, latch := m.latch != (mode != Momentary && !m.used))
    else m
  }

  function Changed(m: bool, want: bool, i: nat): seq<Event> { if want != m then [Mod(i, want)] else [] }

  // The events before the keys: a change of a held modifier, or the physical edge
  // of a layer one.
  function Pre(m: Modifier, mode: Mode, phys: bool, i: nat): seq<Event> {
    var m1 := StepMod(m, mode, phys);
    if Held(i) then Changed(m1.sent, phys || m1.latch, i)
    else if phys != m.down then [Mod(i, phys)] else []
  }

  // The modifier when the keys are scanned.
  function AtKeys(m: Modifier, mode: Mode, phys: bool, i: nat): Modifier {
    var m1 := StepMod(m, mode, phys);
    if Held(i) then m1.(sent := phys || m1.latch) else m1
  }

  // A key press uses every modifier that is down, then clears the one-shot latches
  // that are not.
  function UseMod(m: Modifier, pressed: bool): Modifier { m.(used := m.used || (pressed && m.down)) }

  function ClearMod(m: Modifier, mode: Mode, phys: bool, pressed: bool): Modifier {
    if pressed && mode == Oneshot && m.latch && !phys then m.(latch := false) else m
  }

  function Post(m: Modifier, mode: Mode, phys: bool, pressed: bool, i: nat): seq<Event> {
    var m1 := ClearMod(AtKeys(m, mode, phys, i), mode, phys, pressed);
    if Held(i) then Changed(m1.sent, phys || m1.latch, i) else []
  }

  function AfterScan(m: Modifier, mode: Mode, phys: bool, pressed: bool, i: nat): Modifier {
    var m1 := ClearMod(UseMod(AtKeys(m, mode, phys, i), pressed), mode, phys, pressed);
    if Held(i) then m1.(sent := phys || m1.latch) else m1
  }

  // ----- The keys ----------------------------------------------------------------------

  datatype State = State(mods: seq<Modifier>, prev: Matrix)

  // Everything a scan depends on besides the state: the modes and keymap are set once.
  datatype Board = Board(modes: seq<Mode>, keys: Keymap)

  predicate Valid(b: Board, s: State) {
    |b.modes| == NMODS && Mapped(b.keys) && |s.mods| == NMODS && Sized(s.prev)
  }

  function Phys(cur: Matrix, i: nat): bool
    requires Sized(cur) && i < NMODS
  {
    cur[MOD_ROW[i]][MOD_COL[i]]
  }

  predicate IsModPos(r: nat, c: nat) { (r == 2 && c < 2) || (r == 3 && (c == 0 || c == 2)) }

  // The layer of the strongest active modifier: Fn over Shift over none.
  function Layer(b: Board, s: State, cur: Matrix): (l: nat)
    requires |b.modes| == NMODS && |s.mods| == NMODS && Sized(cur)
    ensures l < 3
  {
    if Phys(cur, FN) || StepMod(s.mods[FN], b.modes[FN], Phys(cur, FN)).latch then 2
    else if Phys(cur, SHIFT) || StepMod(s.mods[SHIFT], b.modes[SHIFT], Phys(cur, SHIFT)).latch then 1
    else 0
  }

  // A key with nothing on the layer falls through to its base code.
  function Code(k: Keymap, r: nat, c: nat, layer: nat): nat
    requires Mapped(k) && r < ROWS && c < COLS && layer < 3
  {
    if k[r][c][layer] == 0 && layer > 0 then k[r][c][0] else k[r][c][layer]
  }

  // What one key injects: its change, unless it has no code.
  function KeyAt(k: Keymap, prev: Matrix, cur: Matrix, layer: nat, r: nat, c: nat): seq<Event>
    requires Mapped(k) && Sized(prev) && Sized(cur) && layer < 3 && r < ROWS && c < COLS
  {
    var code := Code(k, r, c, layer);
    if !IsModPos(r, c) && cur[r][c] != prev[r][c] && code != 0 then [Key(r, c, code, cur[r][c])] else []
  }

  // The events of the first n keys, row by row.
  function KeyEvents(k: Keymap, prev: Matrix, cur: Matrix, layer: nat, n: nat): seq<Event>
    requires Mapped(k) && Sized(prev) && Sized(cur) && layer < 3 && n <= KEYS
  {
    if n == 0 then []
    else KeyEvents(k, prev, cur, layer, n - 1) + KeyAt(k, prev, cur, layer, (n - 1) / COLS, (n - 1) % COLS)
  }

  // Did any of them press a key?
  predicate AnyPress(es: seq<Event>) { exists j | 0 <= j < |es| :: es[j].Key? && es[j].press }

  function PrevAfter(prev: Matrix, cur: Matrix): Matrix
    requires Sized(prev) && Sized(cur)
  {
    seq(ROWS, r requires 0 <= r < ROWS =>
      seq(COLS, c requires 0 <= c < COLS => if IsModPos(r, c) then prev[r][c] else cur[r][c]))
  }

  // ----- A scan --------------------------------------------------------------------------

  function Keyed(b: Board, s: State, cur: Matrix): seq<Event>
    requires Valid(b, s) && Sized(cur)
  {
    KeyEvents(b.keys, s.prev, cur, Layer(b, s, cur), KEYS)
  }

  function PreAll(b: Board, s: State, cur: Matrix, n: nat): seq<Event>
    requires |b.modes| == NMODS && |s.mods| == NMODS && Sized(cur) && n <= NMODS
  {
    if n == 0 then []
    else PreAll(b, s, cur, n - 1) + Pre(s.mods[n - 1], b.modes[n - 1], Phys(cur, n - 1), n - 1)
  }

  function PostAll(b: Board, s: State, cur: Matrix, pressed: bool, n: nat): seq<Event>
    requires |b.modes| == NMODS && |s.mods| == NMODS && Sized(cur) && n <= NMODS
  {
    if n == 0 then []
    else PostAll(b, s, cur, pressed, n - 1)
         + Post(s.mods[n - 1], b.modes[n - 1], Phys(cur, n - 1), pressed, n - 1)
  }

  function Emitted(b: Board, s: State, cur: Matrix): seq<Event>
    requires Valid(b, s) && Sized(cur)
  {
    var keys := Keyed(b, s, cur);
    PreAll(b, s, cur, NMODS) + keys + PostAll(b, s, cur, AnyPress(keys), NMODS)
  }

  function Scan(b: Board, s: State, cur: Matrix): State
    requires Valid(b, s) && Sized(cur)
  {
    var pressed := AnyPress(Keyed(b, s, cur));
    State(seq(NMODS, i requires 0 <= i < NMODS =>
            AfterScan(s.mods[i], b.modes[i], Phys(cur, i), pressed, i)),
          PrevAfter(s.prev, cur))
  }

  // ----- The events of one modifier ----------------------------------------------------------

  function Presses(es: seq<Event>, i: nat): seq<bool> {
    if es == [] then []
    else
      var e := es[|es| - 1];
      Presses(es[..|es| - 1], i) + if e.Mod? && e.i == i then [e.press] else []
  }

  lemma {:induction false} PressesCat(a: seq<Event>, b: seq<Event>, i: nat)
    ensures Presses(a + b, i) == Presses(a, i) + Presses(b, i)
    decreases |b|
  {
    if b == [] {
      assert a + b == a;
    } else {
      var n := |b| - 1;
      assert (a + b)[..|a + b| - 1] == a + b[..n];
      PressesCat(a, b[..n], i);
    }
  }

  lemma PressesOne(e: Event, i: nat)
    ensures Presses([e], i) == if e.Mod? && e.i == i then [e.press] else []
  {
    assert [e][..0] == [];
    assert Presses([], i) == [];
  }

  lemma KeyNoMod(k: Keymap, prev: Matrix, cur: Matrix, layer: nat, r: nat, c: nat, i: nat)
    requires Mapped(k) && Sized(prev) && Sized(cur) && layer < 3 && r < ROWS && c < COLS
    ensures Presses(KeyAt(k, prev, cur, layer, r, c), i) == []
  {
    hide Code, IsModPos, Presses;
    PressesOne(Key(r, c, Code(k, r, c, layer), cur[r][c]), i);
    NoPresses(i);
  }

  lemma {:induction false} KeysNoMods(k: Keymap, prev: Matrix, cur: Matrix, layer: nat, n: nat, i: nat)
    requires Mapped(k) && Sized(prev) && Sized(cur) && layer < 3 && n <= KEYS
    ensures Presses(KeyEvents(k, prev, cur, layer, n), i) == []
  {
    hide Presses, KeyAt, Mapped, Sized;
    NoPresses(i);
    if n > 0 {
      KeysNoMods(k, prev, cur, layer, n - 1, i);
      var r, c := (n - 1) / COLS, (n - 1) % COLS;
      KeyNoMod(k, prev, cur, layer, r, c, i);
      PressesCat(KeyEvents(k, prev, cur, layer, n - 1), KeyAt(k, prev, cur, layer, r, c), i);
    }
  }

  function Flip(was: bool, now: bool): seq<bool> { if was != now then [now] else [] }

  lemma ChangedIs(was: bool, now: bool, j: nat, i: nat)
    ensures Presses(Changed(was, now, j), i) == if i == j then Flip(was, now) else []
  {
    PressesOne(Mod(j, now), i);
    assert Presses([], i) == [];
  }

  lemma PreIs(m: Modifier, mode: Mode, phys: bool, j: nat, i: nat)
    ensures i != j ==> Presses(Pre(m, mode, phys, j), i) == []
    ensures Held(j) ==> Presses(Pre(m, mode, phys, j), j) == Flip(m.sent, AtKeys(m, mode, phys, j).sent)
  {
    hide Presses;
    var m1 := StepMod(m, mode, phys);
    ChangedIs(m1.sent, phys || m1.latch, j, i);
    ChangedIs(m1.sent, phys || m1.latch, j, j);
    PressesOne(Mod(j, phys), i);
    NoPresses(i);
  }

  lemma NoPresses(i: nat)
    ensures Presses([], i) == []
  {}

  lemma PostIs(m: Modifier, mode: Mode, phys: bool, pressed: bool, j: nat, i: nat)
    ensures i != j ==> Presses(Post(m, mode, phys, pressed, j), i) == []
    ensures Held(j) ==> Presses(Post(m, mode, phys, pressed, j), j)
                        == Flip(AtKeys(m, mode, phys, j).sent, AfterScan(m, mode, phys, pressed, j).sent)
  {
    hide Presses;
    var m1 := ClearMod(AtKeys(m, mode, phys, j), mode, phys, pressed);
    ChangedIs(m1.sent, phys || m1.latch, j, i);
    ChangedIs(m1.sent, phys || m1.latch, j, j);
    NoPresses(i);
  }

  lemma {:induction false} PreAllIs(b: Board, s: State, cur: Matrix, n: nat, i: nat)
    requires Valid(b, s) && Sized(cur) && n <= NMODS && Held(i)
    ensures Presses(PreAll(b, s, cur, n), i) ==
            if i < n then Flip(s.mods[i].sent, AtKeys(s.mods[i], b.modes[i], Phys(cur, i), i).sent) else []
  {
    hide Presses, Pre, AtKeys, Flip, Mapped, Sized;
    NoPresses(i);
    if n > 0 {
      var j := n - 1;
      PreAllIs(b, s, cur, j, i);
      PressesCat(PreAll(b, s, cur, j), Pre(s.mods[j], b.modes[j], Phys(cur, j), j), i);
      PreIs(s.mods[j], b.modes[j], Phys(cur, j), j, i);
    }
  }

  lemma {:induction false} PostAllIs(b: Board, s: State, cur: Matrix, pressed: bool, n: nat, i: nat)
    requires Valid(b, s) && Sized(cur) && n <= NMODS && Held(i)
    ensures Presses(PostAll(b, s, cur, pressed, n), i) ==
            if i < n then Flip(AtKeys(s.mods[i], b.modes[i], Phys(cur, i), i).sent,
                               AfterScan(s.mods[i], b.modes[i], Phys(cur, i), pressed, i).sent) else []
  {
    hide Presses, Post, AtKeys, Flip, Mapped, Sized, AfterScan;
    NoPresses(i);
    if n > 0 {
      var j := n - 1;
      PostAllIs(b, s, cur, pressed, j, i);
      PressesCat(PostAll(b, s, cur, pressed, j), Post(s.mods[j], b.modes[j], Phys(cur, j), pressed, j), i);
      PostIs(s.mods[j], b.modes[j], Phys(cur, j), pressed, j, i);
    }
  }

  // ----- Runs --------------------------------------------------------------------------------

  lemma ScanValid(b: Board, s: State, cur: Matrix)
    requires Valid(b, s) && Sized(cur)
    ensures Valid(b, Scan(b, s, cur))
  {
    hide Mapped, Emitted, Keyed;
  }

  ghost predicate AllSized(curs: seq<Matrix>) { forall k | 0 <= k < |curs| :: Sized(curs[k]) }

  ghost function Runs(b: Board, s: State, curs: seq<Matrix>): (r: State)
    requires Valid(b, s) && AllSized(curs)
    ensures Valid(b, r)
  {
    if curs == [] then s
    else
      var n := |curs| - 1;
      var t := Runs(b, s, curs[..n]);
      ScanValid(b, t, curs[n]);
      Scan(b, t, curs[n])
  }

  // Everything a run injects.
  ghost function Log(b: Board, s: State, curs: seq<Matrix>): seq<Event>
    requires Valid(b, s) && AllSized(curs)
  {
    if curs == [] then []
    else
      var n := |curs| - 1;
      Log(b, s, curs[..n]) + Emitted(b, Runs(b, s, curs[..n]), curs[n])
  }

  // Presses and releases in turn, the first one the opposite of `was`.
  predicate Alternates(ps: seq<bool>, was: bool)
    decreases |ps|
  {
    var n := |ps| - 1;
    ps == [] || (Alternates(ps[..n], was) && ps[n] != Last(ps[..n], was))
  }

  function Last(ps: seq<bool>, was: bool): bool { if ps == [] then was else ps[|ps| - 1] }

  lemma {:induction false} AlternatesCat(p: seq<bool>, q: seq<bool>, was: bool)
    requires Alternates(p, was) && Alternates(q, Last(p, was))
    ensures Alternates(p + q, was) && Last(p + q, was) == Last(q, Last(p, was))
    decreases |q|
  {
    if q == [] {
      assert p + q == p;
    } else {
      var n := |q| - 1;
      AlternatesCat(p, q[..n], was);
      assert (p + q)[..|p + q| - 1] == p + q[..n];
    }
  }

  lemma FlipAlternates(was: bool, now: bool)
    ensures Alternates(Flip(was, now), was) && Last(Flip(was, now), was) == now
  {
    assert [now][..0] == [];
  }

  // The events a scan injects for a held modifier: before the keys and after them.
  lemma ScanPresses(b: Board, s: State, cur: Matrix, i: nat)
    requires Valid(b, s) && Sized(cur) && Held(i)
    ensures var mid := AtKeys(s.mods[i], b.modes[i], Phys(cur, i), i).sent;
      Presses(Emitted(b, s, cur), i) == Flip(s.mods[i].sent, mid) + Flip(mid, Scan(b, s, cur).mods[i].sent)
  {
    hide Presses, AtKeys, AfterScan, Flip, KeyEvents, PreAll, PostAll, Layer, AnyPress, Mapped, Sized, PrevAfter;
    var keys := Keyed(b, s, cur);
    var pressed := AnyPress(keys);
    var pre, post := PreAll(b, s, cur, NMODS), PostAll(b, s, cur, pressed, NMODS);
    PreAllIs(b, s, cur, NMODS, i);
    KeysNoMods(b.keys, s.prev, cur, Layer(b, s, cur), KEYS, i);
    PostAllIs(b, s, cur, pressed, NMODS, i);
    PressesCat(pre + keys, post, i);
    PressesCat(pre, keys, i);
    assert Presses(pre, i) + [] == Presses(pre, i);
  }

  lemma ScanAlternates(b: Board, s: State, cur: Matrix, i: nat)
    requires Valid(b, s) && Sized(cur) && Held(i)
    ensures var ps := Presses(Emitted(b, s, cur), i);
      Alternates(ps, s.mods[i].sent) && Last(ps, s.mods[i].sent) == Scan(b, s, cur).mods[i].sent
  {
    hide Presses, AtKeys, AfterScan, Flip, Emitted, Scan, Alternates, Last, Mapped, Sized;
    ScanPresses(b, s, cur, i);
    ScanValid(b, s, cur);
    var was := s.mods[i].sent;
    var mid := AtKeys(s.mods[i], b.modes[i], Phys(cur, i), i).sent;
    var now := Scan(b, s, cur).mods[i].sent;
    FlipAlternates(was, mid);
    FlipAlternates(mid, now);
    AlternatesCat(Flip(was, mid), Flip(mid, now), was);
  }

  // Over every run, the events of Ctrl and of Alt are presses and releases in turn,
  // and the last one is what the run leaves as sent.
  lemma {:induction false} RunAlternates(b: Board, s: State, curs: seq<Matrix>, i: nat)
    requires Valid(b, s) && AllSized(curs) && Held(i)
    ensures var ps := Presses(Log(b, s, curs), i);
      Alternates(ps, s.mods[i].sent) && Last(ps, s.mods[i].sent) == Runs(b, s, curs).mods[i].sent
    decreases |curs|
  {
    hide Presses, Emitted, Scan, Alternates, Last, Sized, Mapped;
    NoAlternation(s.mods[i].sent);
    NoPresses(i);
    if curs != [] {
      var n := |curs| - 1;
      var t := Runs(b, s, curs[..n]);
      RunAlternates(b, s, curs[..n], i);
      ScanAlternates(b, t, curs[n], i);
      var ps, qs := Presses(Log(b, s, curs[..n]), i), Presses(Emitted(b, t, curs[n]), i);
      PressesCat(Log(b, s, curs[..n]), Emitted(b, t, curs[n]), i);
      AlternatesCat(ps, qs, s.mods[i].sent);
    }
  }

  lemma NoAlternation(was: bool)
    ensures Alternates([], was) && Last([], was) == was
  {}

  // The daemon starts with nothing down, latched or sent.
  const OFF := Modifier(false, false, false, false)
  function Start(): State {
    State([OFF, OFF, OFF, OFF], seq(ROWS, r => seq(COLS, c => false)))
  }

  // From the start: a press first, then in turn; and after each scan the last event
  // sent is a press exactly if the modifier is held or latched.
  lemma HeldEvents(b: Board, curs: seq<Matrix>, i: nat)
    requires Valid(b, Start()) && AllSized(curs) && Held(i)
    ensures var ps := Presses(Log(b, Start(), curs), i);
      && (forall k | 0 <= k < |ps| :: ps[k] == (k % 2 == 0))
      && (curs != [] ==>
            Last(ps, false) == (Phys(curs[|curs| - 1], i) || Runs(b, Start(), curs).mods[i].latch))
  {
    hide Presses, Log, Emitted, Keyed, Mapped, Sized, Alternates;
    RunAlternates(b, Start(), curs, i);
    InTurn(Presses(Log(b, Start(), curs), i));
  }

  lemma {:induction false} InTurn(ps: seq<bool>)
    requires Alternates(ps, false)
    ensures forall k | 0 <= k < |ps| :: ps[k] == (k % 2 == 0)
    decreases |ps|
  {
    if ps != [] {
      var n := |ps| - 1;
      InTurn(ps[..n]);
      forall k | 0 <= k < |ps| ensures ps[k] == (k % 2 == 0) {
        if k < n { assert ps[k] == ps[..n][k]; } else if n > 0 { assert ps[..n][n - 1] == ps[n - 1]; }
      }
    }
  }

  // ----- Taps and holds -----------------------------------------------------------------------

  // Was an ordinary key pressed in any of the scans?
  ghost predicate KeyPressed(b: Board, s: State, curs: seq<Matrix>)
    requires Valid(b, s) && AllSized(curs)
  {
    var n := |curs| - 1;
    curs != [] && (KeyPressed(b, s, curs[..n]) || AnyPress(Keyed(b, Runs(b, s, curs[..n]), curs[n])))
  }

  ghost predicate AllPhys(curs: seq<Matrix>, i: nat, phys: bool)
    requires AllSized(curs) && i < NMODS
  {
    forall k | 0 <= k < |curs| :: Phys(curs[k], i) == phys
  }

  lemma ScanMod(b: Board, s: State, cur: Matrix, i: nat)
    requires Valid(b, s) && Sized(cur) && i < NMODS
    ensures Valid(b, Scan(b, s, cur))
    ensures Scan(b, s, cur).mods[i] ==
            AfterScan(s.mods[i], b.modes[i], Phys(cur, i), AnyPress(Keyed(b, s, cur)), i)
  {
    ScanValid(b, s, cur);
  }

  // While a modifier is held its latch stays, and it is used once a key is pressed.
  lemma {:induction false} HoldKeeps(b: Board, s: State, curs: seq<Matrix>, i: nat)
    requires Valid(b, s) && AllSized(curs) && i < NMODS && curs != [] && AllPhys(curs, i, true)
    requires !s.mods[i].down
    ensures var m := Runs(b, s, curs).mods[i];
      m.down && m.latch == s.mods[i].latch && m.used == KeyPressed(b, s, curs)
    decreases |curs|
  {
    hide Scan, Keyed, AnyPress, Sized, Mapped;
    var n := |curs| - 1;
    var t := Runs(b, s, curs[..n]);
    ScanMod(b, t, curs[n], i);
    assert Phys(curs[n], i);
    if n > 0 {
      HoldKeeps(b, s, curs[..n], i);
    } else {
      assert curs[..n] == [];
    }
  }

  // A hold toggles the latch when it ends exactly if the modifier latches at all and
  // no ordinary key was pressed during the hold; a one-shot latch set in a scan that
  // also presses a key is gone again at the end of it.
  lemma TapOrUse(b: Board, s: State, hold: seq<Matrix>, release: Matrix, i: nat)
    requires Valid(b, s) && AllSized(hold) && Sized(release) && i < NMODS
    requires hold != [] && AllPhys(hold, i, true) && !Phys(release, i) && !s.mods[i].down
    ensures var t := Runs(b, s, hold);
      var toggled := s.mods[i].latch != (b.modes[i] != Momentary && !KeyPressed(b, s, hold));
      && t.mods[i].latch == s.mods[i].latch
      && AtKeys(t.mods[i], b.modes[i], false, i).latch == toggled
      && Valid(b, Scan(b, t, release))
      && Scan(b, t, release).mods[i].latch ==
         (toggled && !(b.modes[i] == Oneshot && AnyPress(Keyed(b, t, release))))
  {
    hide Scan, Keyed, AnyPress, Sized, Mapped, Runs, KeyPressed;
    HoldKeeps(b, s, hold, i);
    ScanMod(b, Runs(b, s, hold), release, i);
  }

  // ----- One-shot -------------------------------------------------------------------------------

  // An armed modifier: latched, not held, its press already sent.
  predicate Armed(m: Modifier, i: nat) { m.latch && !m.down && (Held(i) ==> m.sent) }

  // It stays armed, and silent, while it is not touched and no key is pressed.
  lemma {:induction false} ArmedWaits(b: Board, s: State, idle: seq<Matrix>, i: nat)
    requires Valid(b, s) && AllSized(idle) && i < NMODS && AllPhys(idle, i, false)
    requires Armed(s.mods[i], i) && !KeyPressed(b, s, idle)
    ensures Armed(Runs(b, s, idle).mods[i], i)
    ensures Held(i) ==> Presses(Log(b, s, idle), i) == []
    decreases |idle|
  {
    hide Scan, Keyed, AnyPress, Sized, Mapped, Presses, Emitted;
    NoPresses(i);
    if idle != [] {
      var n := |idle| - 1;
      var t := Runs(b, s, idle[..n]);
      ArmedWaits(b, s, idle[..n], i);
      ScanMod(b, t, idle[n], i);
      assert !Phys(idle[n], i);
      if Held(i) {
        ScanPresses(b, t, idle[n], i);
        PressesCat(Log(b, s, idle[..n]), Emitted(b, t, idle[n]), i);
      }
    }
  }

  // The next key press uses it up: the key is scanned with the modifier still on, the
  // latch is gone at the end of that scan, and its release is injected after the key.
  lemma OneshotNextKey(b: Board, s: State, idle: seq<Matrix>, cur: Matrix, i: nat)
    requires Valid(b, s) && AllSized(idle) && Sized(cur) && i < NMODS && AllPhys(idle, i, false)
    requires Armed(s.mods[i], i) && !KeyPressed(b, s, idle) && b.modes[i] == Oneshot && !Phys(cur, i)
    requires AnyPress(Keyed(b, Runs(b, s, idle), cur))
    ensures var t := Runs(b, s, idle);
      && Valid(b, Scan(b, t, cur)) && !Scan(b, t, cur).mods[i].latch
      && (i == FN ==> Layer(b, t, cur) == 2) && (i == SHIFT ==> Layer(b, t, cur) >= 1)
      && (Held(i) ==>
           && Presses(PreAll(b, t, cur, NMODS), i) == []
           && Presses(PostAll(b, t, cur, true, NMODS), i) == [false]
           && Emitted(b, t, cur) == PreAll(b, t, cur, NMODS) + Keyed(b, t, cur) + PostAll(b, t, cur, true, NMODS))
  {
    hide Scan, Keyed, AnyPress, Sized, Mapped, Presses, PreAll, PostAll, KeyPressed, Runs, Log;
    var t := Runs(b, s, idle);
    ArmedWaits(b, s, idle, i);
    ScanMod(b, t, cur, i);
    if Held(i) {
      PreAllIs(b, t, cur, NMODS, i);
      PostAllIs(b, t, cur, true, NMODS, i);
    }
  }
}
