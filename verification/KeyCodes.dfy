// The codes of one key over whole runs of the matrix keyboard
// (apps/system/kb_iomatrix/kb_iomatrix.c). The layer is looked up afresh for the
// press and for the release, so a key can release a code it never pressed.

module KeyCodes {
  import opened Modifiers

  // The presses and releases of a code that the key at (r, c) injects.
  function Typed(es: seq<Event>, r: nat, c: nat, x: nat): seq<bool> {
    if es == [] then []
    else
      var e := es[|es| - 1];
      Typed(es[..|es| - 1], r, c, x) + if e.Key? && e.row == r && e.col == c && e.code == x then [e.press] else []
  }

  lemma {:induction false} TypedCat(a: seq<Event>, b: seq<Event>, r: nat, c: nat, x: nat)
    ensures Typed(a + b, r, c, x) == Typed(a, r, c, x) + Typed(b, r, c, x)
    decreases |b|
  {
    if b == [] {
      assert a + b == a;
    } else {
      var n := |b| - 1;
      assert (a + b)[..|a + b| - 1] == a + b[..n];
      TypedCat(a, b[..n], r, c, x);
    }
  }

  lemma TypedOne(e: Event, r: nat, c: nat, x: nat)
    ensures Typed([], r, c, x) == []
    ensures Typed([e], r, c, x) == if e.Key? && e.row == r && e.col == c && e.code == x then [e.press] else []
  {
    assert [e][..0] == [];
    assert Typed([], r, c, x) == [];
  }

  // Modifiers inject none of them.
  lemma ModsTypeNone(m: Modifier, mode: Mode, phys: bool, pressed: bool, i: nat, r: nat, c: nat, x: nat)
    ensures Typed(Pre(m, mode, phys, i), r, c, x) == [] && Typed(Post(m, mode, phys, pressed, i), r, c, x) == []
  {
    hide Typed;
    TypedOne(Mod(i, true), r, c, x);
    TypedOne(Mod(i, false), r, c, x);
  }

  lemma {:induction false} PreTypesNone(b: Board, s: State, cur: Matrix, n: nat, r: nat, c: nat, x: nat)
    requires Valid(b, s) && Sized(cur) && n <= NMODS
    ensures Typed(PreAll(b, s, cur, n), r, c, x) == []
  {
    hide Typed, Pre, Post, Mapped, Sized;
    TypedOne(Mod(0, true), r, c, x);
    if n > 0 {
      var j := n - 1;
      PreTypesNone(b, s, cur, j, r, c, x);
      ModsTypeNone(s.mods[j], b.modes[j], Phys(cur, j), true, j, r, c, x);
      TypedCat(PreAll(b, s, cur, j), Pre(s.mods[j], b.modes[j], Phys(cur, j), j), r, c, x);
    }
  }

  lemma {:induction false} PostTypesNone(b: Board, s: State, cur: Matrix, pressed: bool, n: nat,
                                         r: nat, c: nat, x: nat)
    requires Valid(b, s) && Sized(cur) && n <= NMODS
    ensures Typed(PostAll(b, s, cur, pressed, n), r, c, x) == []
  {
    hide Typed, Pre, Post, Mapped, Sized;
    TypedOne(Mod(0, true), r, c, x);
    if n > 0 {
      var j := n - 1;
      PostTypesNone(b, s, cur, pressed, j, r, c, x);
      ModsTypeNone(s.mods[j], b.modes[j], Phys(cur, j), pressed, j, r, c, x);
      TypedCat(PostAll(b, s, cur, pressed, j), Post(s.mods[j], b.modes[j], Phys(cur, j), pressed, j), r, c, x);
    }
  }

  lemma {:induction false} KeysType(k: Keymap, prev: Matrix, cur: Matrix, layer: nat, n: nat, r: nat, c: nat, x: nat)
    requires Mapped(k) && Sized(prev) && Sized(cur) && layer < 3 && n <= KEYS && r < ROWS && c < COLS
    ensures Typed(KeyEvents(k, prev, cur, layer, n), r, c, x)
         == if r * COLS + c < n then Typed(KeyAt(k, prev, cur, layer, r, c), r, c, x) else []
  {
    hide Typed, KeyAt, Mapped, Sized;
    TypedOne(Mod(0, true), r, c, x);
    if n > 0 {
      var r', c' := (n - 1) / COLS, (n - 1) % COLS;
      KeysType(k, prev, cur, layer, n - 1, r, c, x);
      TypedCat(KeyEvents(k, prev, cur, layer, n - 1), KeyAt(k, prev, cur, layer, r', c'), r, c, x);
      if r' != r || c' != c { OtherKey(k, prev, cur, layer, r', c', r, c, x); }
    }
  }

  lemma OtherKey(k: Keymap, prev: Matrix, cur: Matrix, layer: nat, r': nat, c': nat, r: nat, c: nat, x: nat)
    requires Mapped(k) && Sized(prev) && Sized(cur) && layer < 3 && r' < ROWS && c' < COLS && (r' != r || c' != c)
    ensures Typed(KeyAt(k, prev, cur, layer, r', c'), r, c, x) == []
  {
    hide Typed, Code, IsModPos;
    TypedOne(Key(r', c', Code(k, r', c', layer), cur[r'][c']), r, c, x);
  }

  lemma ThisKey(k: Keymap, prev: Matrix, cur: Matrix, layer: nat, r: nat, c: nat, x: nat)
    requires Mapped(k) && Sized(prev) && Sized(cur) && layer < 3 && r < ROWS && c < COLS
    requires !IsModPos(r, c) && x != 0
    ensures Typed(KeyAt(k, prev, cur, layer, r, c), r, c, x)
         == if Code(k, r, c, layer) == x then Flip(prev[r][c], cur[r][c]) else []
  {
    hide Typed, Code;
    TypedOne(Key(r, c, Code(k, r, c, layer), cur[r][c]), r, c, x);
  }

  // What one scan injects of a code: the change of the key, if the layer of that
  // scan gives it the code.
  lemma ScanTypes(b: Board, s: State, cur: Matrix, r: nat, c: nat, x: nat)
    requires Valid(b, s) && Sized(cur) && r < ROWS && c < COLS && !IsModPos(r, c) && x != 0
    ensures Typed(Emitted(b, s, cur), r, c, x)
         == if Code(b.keys, r, c, Layer(b, s, cur)) == x then Flip(s.prev[r][c], cur[r][c]) else []
  {
    hide Typed, Flip, KeyAt, KeyEvents, PreAll, PostAll, Layer, AnyPress, Mapped, Sized, Code;
    var keys, layer := Keyed(b, s, cur), Layer(b, s, cur);
    var pressed := AnyPress(keys);
    var pre, post := PreAll(b, s, cur, NMODS), PostAll(b, s, cur, pressed, NMODS);
    PreTypesNone(b, s, cur, NMODS, r, c, x);
    PostTypesNone(b, s, cur, pressed, NMODS, r, c, x);
    KeysType(b.keys, s.prev, cur, layer, KEYS, r, c, x);
    ThisKey(b.keys, s.prev, cur, layer, r, c, x);
    TypedCat(pre + keys, post, r, c, x);
    TypedCat(pre, keys, r, c, x);
  }

  // ----- Keys with one code ----------------------------------------------------------------

  // The key has the same code on every layer.
  predicate OneCode(k: Keymap, r: nat, c: nat)
    requires Mapped(k) && r < ROWS && c < COLS
  {
    Code(k, r, c, 0) == Code(k, r, c, 1) == Code(k, r, c, 2)
  }

  lemma OneCodeAt(k: Keymap, r: nat, c: nat, layer: nat)
    requires Mapped(k) && r < ROWS && c < COLS && OneCode(k, r, c) && layer < 3
    ensures Code(k, r, c, layer) == Code(k, r, c, 0)
  {}

  lemma PrevAt(b: Board, s: State, cur: Matrix, r: nat, c: nat)
    requires Valid(b, s) && Sized(cur) && r < ROWS && c < COLS && !IsModPos(r, c)
    ensures Valid(b, Scan(b, s, cur)) && Scan(b, s, cur).prev[r][c] == cur[r][c]
  {
    hide Keyed, Mapped;
    ScanValid(b, s, cur);
  }

  // Over any run such a key presses and releases its code in turn, and the last of
  // these is a press exactly if the key is down.
  lemma {:induction false} OneCodeInTurn(b: Board, s: State, curs: seq<Matrix>, r: nat, c: nat)
    requires Valid(b, s) && AllSized(curs) && r < ROWS && c < COLS && !IsModPos(r, c)
    requires OneCode(b.keys, r, c) && Code(b.keys, r, c, 0) != 0
    ensures var ps, was := Typed(Log(b, s, curs), r, c, Code(b.keys, r, c, 0)), s.prev[r][c];
      Alternates(ps, was) && Last(ps, was) == Runs(b, s, curs).prev[r][c]
    decreases |curs|
  {
    hide Typed, Emitted, Scan, Code, Layer, Flip, Alternates, Last, Mapped, OneCode, IsModPos;
    var x, was := Code(b.keys, r, c, 0), s.prev[r][c];
    TypedOne(Mod(0, true), r, c, x);
    if curs == [] {
      NoAlternation(was);
    } else {
      var n := |curs| - 1;
      var t := Runs(b, s, curs[..n]);
      OneCodeInTurn(b, s, curs[..n], r, c);
      ScanTypes(b, t, curs[n], r, c, x);
      OneCodeAt(b.keys, r, c, Layer(b, t, curs[n]));
      PrevAt(b, t, curs[n], r, c);
      TypedCat(Log(b, s, curs[..n]), Emitted(b, t, curs[n]), r, c, x);
      FlipAlternates(t.prev[r][c], curs[n][r][c]);
      AlternatesCat(Typed(Log(b, s, curs[..n]), r, c, x), Flip(t.prev[r][c], curs[n][r][c]), was);
    }
  }

  lemma {:induction false} OtherCodeNever(b: Board, s: State, curs: seq<Matrix>, r: nat, c: nat, x: nat)
    requires Valid(b, s) && AllSized(curs) && r < ROWS && c < COLS && !IsModPos(r, c)
    requires OneCode(b.keys, r, c) && Code(b.keys, r, c, 0) != x && x != 0
    ensures Typed(Log(b, s, curs), r, c, x) == []
    decreases |curs|
  {
    hide Typed, Emitted, Scan, Code, Layer, Flip, Mapped, Sized, OneCode, IsModPos;
    TypedOne(Mod(0, true), r, c, x);
    if curs != [] {
      var n := |curs| - 1;
      var t := Runs(b, s, curs[..n]);
      OtherCodeNever(b, s, curs[..n], r, c, x);
      ScanTypes(b, t, curs[n], r, c, x);
      OneCodeAt(b.keys, r, c, Layer(b, t, curs[n]));
      TypedCat(Log(b, s, curs[..n]), Emitted(b, t, curs[n]), r, c, x);
    }
  }

  // ----- Keys with more than one -------------------------------------------------------------

  // Nothing pressed but the key at (r, c); and nothing but a modifier.
  function Only(r: nat, c: nat): (m: Matrix)
    ensures Sized(m)
  {
    seq(ROWS, i requires 0 <= i < ROWS => seq(COLS, j requires 0 <= j < COLS => i == r && j == c))
  }

  // The key is pressed, and Fn or Shift goes down just as it is let go.
  function Handover(r: nat, c: nat, l: nat): (curs: seq<Matrix>)
    ensures AllSized(curs)
  {
    [Only(r, c), if l == 2 then Only(2, 0) else Only(2, 1)]
  }

  lemma HandoverLayers(b: Board, r: nat, c: nat, l: nat)
    requires Valid(b, Start()) && r < ROWS && c < COLS && !IsModPos(r, c) && 1 <= l < 3
    ensures var curs := Handover(r, c, l); var t := Scan(b, Start(), curs[0]);
      && Layer(b, Start(), curs[0]) == 0
      && Valid(b, t) && Layer(b, t, curs[1]) == l
      && !Start().prev[r][c] && curs[0][r][c] && t.prev[r][c] && !curs[1][r][c]
  {
    hide Keyed, Mapped, Scan;
    PrevAt(b, Start(), Only(r, c), r, c);
    StaysOff(b, Only(r, c), FN);
    StaysOff(b, Only(r, c), SHIFT);
  }

  // A modifier that is not touched in the first scan is off in the second.
  lemma StaysOff(b: Board, cur: Matrix, i: nat)
    requires Valid(b, Start()) && Sized(cur) && i < NMODS && !Phys(cur, i)
    ensures !StepMod(Start().mods[i], b.modes[i], Phys(cur, i)).latch
    ensures var m := Scan(b, Start(), cur).mods[i]; !m.down && !m.latch
  {
    hide Keyed, Mapped, Scan, AnyPress;
    ScanMod(b, Start(), cur, i);
  }

  // Then the first event of the second code is a release.
  lemma HandoverReleases(b: Board, r: nat, c: nat, l: nat)
    requires Valid(b, Start()) && r < ROWS && c < COLS && !IsModPos(r, c) && 1 <= l < 3
    requires Code(b.keys, r, c, 0) != Code(b.keys, r, c, l)
    ensures Code(b.keys, r, c, l) != 0
    ensures Typed(Log(b, Start(), Handover(r, c, l)), r, c, Code(b.keys, r, c, l)) == [false]
  {
    assert Code(b.keys, r, c, l) != 0;
    hide Typed, Emitted, Scan, Code, Layer, Mapped, Sized, IsModPos, Handover, Start;
    var x, curs := Code(b.keys, r, c, l), Handover(r, c, l);
    HandoverLayers(b, r, c, l);
    var t := Scan(b, Start(), curs[0]);
    ScanTypes(b, Start(), curs[0], r, c, x);
    ScanTypes(b, t, curs[1], r, c, x);
    TwoScans(b, Start(), curs);
    TypedCat(Emitted(b, Start(), curs[0]), Emitted(b, t, curs[1]), r, c, x);
  }

  lemma TwoScans(b: Board, s: State, curs: seq<Matrix>)
    requires Valid(b, s) && AllSized(curs) && |curs| == 2
    ensures Valid(b, Scan(b, s, curs[0]))
    ensures Log(b, s, curs) == Emitted(b, s, curs[0]) + Emitted(b, Scan(b, s, curs[0]), curs[1])
  {
    hide Emitted, Scan, Mapped, Sized;
    ScanValid(b, s, curs[0]);
    var one := curs[..1];
    assert one[..0] == [] && one[0] == curs[0];
    assert Runs(b, s, one) == Scan(b, s, curs[0]);
    assert Log(b, s, one) == [] + Emitted(b, s, curs[0]);
  }

  // Over all runs from the start, each code of a key is pressed and released in turn,
  // if and only if the key has the same code on every layer.
  lemma CodesInTurn(b: Board, r: nat, c: nat)
    requires Valid(b, Start()) && r < ROWS && c < COLS && !IsModPos(r, c)
    ensures OneCode(b.keys, r, c) <==>
      forall curs, x | AllSized(curs) && x != 0 :: Alternates(Typed(Log(b, Start(), curs), r, c, x), false)
  {
    hide Log, Runs, Typed, Alternates, Mapped;
    if OneCode(b.keys, r, c) {
      forall curs, x | AllSized(curs) && x != 0
        ensures Alternates(Typed(Log(b, Start(), curs), r, c, x), false)
      {
        NoAlternation(false);
        if x == Code(b.keys, r, c, 0) {
          OneCodeInTurn(b, Start(), curs, r, c);
        } else {
          OtherCodeNever(b, Start(), curs, r, c, x);
        }
      }
    } else {
      var l := if Code(b.keys, r, c, 0) != Code(b.keys, r, c, 1) then 1 else 2;
      HandoverReleases(b, r, c, l);
      ReleaseFirst();
      assert AllSized(Handover(r, c, l));
    }
  }

  lemma ReleaseFirst()
    ensures !Alternates([false], false)
  {
    assert [false][..0] == [];
  }

  // ----- Keys, modifiers and layers, by their places --------------------------------------

  // Fn, Shift, Ctrl and Alt.
  predicate IsModifier(r: nat, c: nat) {
    (r == 2 && c == 0) || (r == 2 && c == 1) || (r == 3 && c == 0) || (r == 3 && c == 2)
  }

  // What a key that changes injects: its code on the layer, or on the first layer if it
  // has none there; nothing if it has none at all, and nothing for a modifier.
  lemma KeyInjects(k: Keymap, prev: Matrix, cur: Matrix, layer: nat, r: nat, c: nat)
    requires Mapped(k) && Sized(prev) && Sized(cur) && layer < 3 && r < ROWS && c < COLS
    ensures var code := if k[r][c][layer] != 0 then k[r][c][layer] else k[r][c][0];
      KeyAt(k, prev, cur, layer, r, c)
      == if IsModifier(r, c) || prev[r][c] == cur[r][c] || code == 0 then [] else [Key(r, c, code, cur[r][c])]
  {}

  // The layer of a scan from the start, and the Ctrl and Alt events before its keys.
  lemma FirstScan(b: Board, cur: Matrix)
    requires Valid(b, Start()) && Sized(cur)
    ensures Layer(b, Start(), cur) == if cur[2][0] then 2 else if cur[2][1] then 1 else 0
    ensures Presses(PreAll(b, Start(), cur, NMODS), 2) == if cur[3][0] then [true] else []
    ensures Presses(PreAll(b, Start(), cur, NMODS), 3) == if cur[3][2] then [true] else []
  {
    hide Presses, PreAll, Mapped;
    PreAllIs(b, Start(), cur, NMODS, 2);
    PreAllIs(b, Start(), cur, NMODS, 3);
  }

  // Fn and Shift only report that they go down and up.
  lemma LayerPre(m: Modifier, mode: Mode, phys: bool, j: nat, i: nat)
    requires i < 2
    ensures Presses(Pre(m, mode, phys, j), i) == if i == j then Flip(m.down, phys) else []
  {
    hide Presses;
    NoPresses(i);
    PressesOne(Mod(j, phys), i);
    PreIs(m, mode, phys, j, i);
  }

  lemma {:induction false} LayerPreAll(b: Board, s: State, cur: Matrix, n: nat, i: nat)
    requires Valid(b, s) && Sized(cur) && n <= NMODS && i < 2
    ensures Presses(PreAll(b, s, cur, n), i) == if i < n then Flip(s.mods[i].down, Phys(cur, i)) else []
  {
    hide Presses, Pre, Flip, Mapped, Sized;
    NoPresses(i);
    if n > 0 {
      var j := n - 1;
      LayerPreAll(b, s, cur, j, i);
      PressesCat(PreAll(b, s, cur, j), Pre(s.mods[j], b.modes[j], Phys(cur, j), j), i);
      LayerPre(s.mods[j], b.modes[j], Phys(cur, j), j, i);
    }
  }

  lemma {:induction false} LayerPostAll(b: Board, s: State, cur: Matrix, pressed: bool, n: nat, i: nat)
    requires Valid(b, s) && Sized(cur) && n <= NMODS && i < 2
    ensures Presses(PostAll(b, s, cur, pressed, n), i) == []
  {
    hide Presses, Post, Mapped, Sized;
    NoPresses(i);
    if n > 0 {
      var j := n - 1;
      LayerPostAll(b, s, cur, pressed, j, i);
      PressesCat(PostAll(b, s, cur, pressed, j), Post(s.mods[j], b.modes[j], Phys(cur, j), pressed, j), i);
      LayerPost(s.mods[j], b.modes[j], Phys(cur, j), pressed, j, i);
    }
  }

  lemma LayerPost(m: Modifier, mode: Mode, phys: bool, pressed: bool, j: nat, i: nat)
    requires i < 2
    ensures Presses(Post(m, mode, phys, pressed, j), i) == []
  {
    hide Presses;
    NoPresses(i);
    PostIs(m, mode, phys, pressed, j, i);
    var m1 := ClearMod(AtKeys(m, mode, phys, j), mode, phys, pressed);
    ChangedIs(m1.sent, phys || m1.latch, j, i);
  }

  lemma LayerScan(b: Board, s: State, cur: Matrix, i: nat)
    requires Valid(b, s) && Sized(cur) && i < 2
    ensures Presses(Emitted(b, s, cur), i) == Flip(s.mods[i].down, Phys(cur, i))
    ensures Valid(b, Scan(b, s, cur)) && Scan(b, s, cur).mods[i].down == Phys(cur, i)
  {
    hide Presses, Flip, KeyEvents, PreAll, PostAll, Layer, AnyPress, Mapped, Sized, Scan;
    var keys := Keyed(b, s, cur);
    var pressed := AnyPress(keys);
    var pre, post := PreAll(b, s, cur, NMODS), PostAll(b, s, cur, pressed, NMODS);
    LayerPreAll(b, s, cur, NMODS, i);
    LayerPostAll(b, s, cur, pressed, NMODS, i);
    KeysNoMods(b.keys, s.prev, cur, Layer(b, s, cur), KEYS, i);
    PressesCat(pre + keys, post, i);
    PressesCat(pre, keys, i);
    ScanMod(b, s, cur, i);
  }

  // Over every run, Fn and Shift are reported down and up in turn, as they are.
  lemma {:induction false} LayerInTurn(b: Board, s: State, curs: seq<Matrix>, i: nat)
    requires Valid(b, s) && AllSized(curs) && i < 2
    ensures var ps := Presses(Log(b, s, curs), i);
      && Alternates(ps, s.mods[i].down) && Last(ps, s.mods[i].down) == Runs(b, s, curs).mods[i].down
      && (curs != [] ==> Runs(b, s, curs).mods[i].down == Phys(curs[|curs| - 1], i))
    decreases |curs|
  {
    hide Presses, Emitted, Scan, Alternates, Last, Sized, Mapped, Flip;
    NoAlternation(s.mods[i].down);
    NoPresses(i);
    if curs != [] {
      var n := |curs| - 1;
      var t := Runs(b, s, curs[..n]);
      LayerInTurn(b, s, curs[..n], i);
      LayerScan(b, t, curs[n], i);
      var ps, qs := Presses(Log(b, s, curs[..n]), i), Presses(Emitted(b, t, curs[n]), i);
      PressesCat(Log(b, s, curs[..n]), Emitted(b, t, curs[n]), i);
      FlipAlternates(t.mods[i].down, Phys(curs[n], i));
      AlternatesCat(ps, qs, s.mods[i].down);
    }
  }
}
