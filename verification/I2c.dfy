// The I2C decoder (sdk/proto/i2c_decode.c): an edge-driven state machine over
// samples of the two bus lines, and the waveforms it has to read
// (NXP UM10204, sections 3.1.4 to 3.1.6).

module I2c {
  import opened Wrappers

  // ----- Samples and tokens ---------------------------------------------------------

  // One sample of the two lines; `true` is the released (high) level.
  datatype Line = Line(t: nat, scl: bool, sda: bool)

  datatype Kind = START | ADDR | DATA | STOP

  datatype Token = Token(kind: Kind, val: nat, rw: bool, ack: bool, t: nat)

  // ----- The state machine -----------------------------------------------------------

  datatype State = State(scl: bool, sda: bool, active: bool, bits: nat, byte: nat, idx: nat)

  const IDLE := State(true, true, false, 0, 0, 0)

  // What one sample does. SDA moving under a high SCL is START or STOP; a rising
  // SCL inside a transaction clocks a bit, the ninth being the acknowledge.
  function Step(st: State, x: Line): (r: (State, Option<Token>)) {
    var nx := st.(scl := x.scl, sda := x.sda);
    if st.scl && x.scl && st.sda != x.sda then
      if st.sda then (nx.(active := true, bits := 0, byte := 0, idx := 0), Some(Token(START, 0, false, false, x.t)))
      else (nx.(active := false), Some(Token(STOP, 0, false, false, x.t)))
    else if !st.scl && x.scl && st.active then
      if st.bits < 8 then
        (nx.(bits := st.bits + 1, byte := 2 * st.byte + (if x.sda then 1 else 0)), None)
      else
        (nx.(bits := 0, byte := 0, idx := st.idx + 1), Some(ByteToken(st, x)))
    else (nx, None)
  }

  function ByteToken(st: State, x: Line): Token {
    if st.idx == 0 then Token(ADDR, st.byte / 2, st.byte % 2 == 1, !x.sda, x.t)
    else Token(DATA, st.byte, false, !x.sda, x.t)
  }

  function After(st: State, xs: seq<Line>): State
    decreases |xs|
  {
    if xs == [] then st else After(Step(st, xs[0]).0, xs[1..])
  }

  function Tokens(st: State, xs: seq<Line>): seq<Token>
    decreases |xs|
  {
    if xs == [] then [] else Emit(Step(st, xs[0]).1) + Tokens(Step(st, xs[0]).0, xs[1..])
  }

  // With room for `max` tokens, the first `max` of them.
  function Take<T>(s: seq<T>, max: nat): seq<T> { if |s| <= max then s else s[..max] }

  // ----- Composition -------------------------------------------------------------------

  lemma {:induction false} TokensCat(st: State, a: seq<Line>, b: seq<Line>)
    ensures After(st, a + b) == After(After(st, a), b)
    ensures Tokens(st, a + b) == Tokens(st, a) + Tokens(After(st, a), b)
    decreases |a|
  {
    if a == [] {
      assert a + b == b;
    } else {
      assert (a + b)[1..] == a[1..] + b;
      TokensCat(Step(st, a[0]).0, a[1..], b);
    }
  }

  lemma One(st: State, a: Line)
    ensures After(st, [a]) == Step(st, a).0 && Tokens(st, [a]) == Emit(Step(st, a).1)
  {
    assert After(st, [a]) == After(Step(st, a).0, []);
  }

  lemma Two(st: State, a: Line, b: Line)
    ensures var s1 := Step(st, a).0;
      && After(st, [a, b]) == Step(s1, b).0
      && Tokens(st, [a, b]) == Emit(Step(st, a).1) + Emit(Step(s1, b).1)
  {
    One(st, a); One(Step(st, a).0, b);
    TokensCat(st, [a], [b]);
    assert [a] + [b] == [a, b];
  }

  lemma Three(st: State, a: Line, b: Line, c: Line)
    ensures var s1 := Step(st, a).0; var s2 := Step(s1, b).0;
      && After(st, [a, b, c]) == Step(s2, c).0
      && Tokens(st, [a, b, c]) == Emit(Step(st, a).1) + Emit(Step(s1, b).1) + Emit(Step(s2, c).1)
  {
    Two(st, a, b); One(After(st, [a, b]), c);
    TokensCat(st, [a, b], [c]);
    assert [a, b] + [c] == [a, b, c];
  }

  // ----- Samples that change neither line ------------------------------------------------

  // The samples that move a line, seen from the given levels.
  function Moves(scl: bool, sda: bool, xs: seq<Line>): seq<Line>
    decreases |xs|
  {
    if xs == [] then []
    else if xs[0].scl == scl && xs[0].sda == sda then Moves(scl, sda, xs[1..])
    else [xs[0]] + Moves(xs[0].scl, xs[0].sda, xs[1..])
  }

  // Dropping every sample that moves nothing drops no token and moves none.
  lemma {:induction false} StutterFree(st: State, xs: seq<Line>)
    ensures Tokens(st, Moves(st.scl, st.sda, xs)) == Tokens(st, xs)
    decreases |xs|
  {
    if xs != [] {
      StutterFree(Step(st, xs[0]).0, xs[1..]);
      if xs[0].scl != st.scl || xs[0].sda != st.sda {
        var m := Moves(xs[0].scl, xs[0].sda, xs[1..]);
        assert ([xs[0]] + m)[1..] == m;
      }
    }
  }

  // Inserting one such sample anywhere changes nothing.
  lemma InsertStutter(st: State, a: seq<Line>, x: Line, b: seq<Line>)
    requires x.scl == After(st, a).scl && x.sda == After(st, a).sda
    ensures Tokens(st, a + [x] + b) == Tokens(st, a + b)
  {
    var s := After(st, a);
    TokensCat(st, a + [x], b);
    TokensCat(st, a, [x]);
    TokensCat(st, a, b);
    assert Step(s, x) == (s, None);
    assert Tokens(s, [x]) == [] && After(s, [x]) == s;
  }

  // ----- Times -----------------------------------------------------------------------------

  // Re-timing the samples re-times the tokens and changes nothing else.
  function Retime(f: nat -> nat, xs: seq<Line>): (r: seq<Line>)
    ensures |r| == |xs|
  {
    if xs == [] then [] else [xs[0].(t := f(xs[0].t))] + Retime(f, xs[1..])
  }

  function RetimeTokens(f: nat -> nat, ks: seq<Token>): (r: seq<Token>)
    ensures |r| == |ks|
  {
    if ks == [] then [] else [ks[0].(t := f(ks[0].t))] + RetimeTokens(f, ks[1..])
  }

  lemma {:induction false} RetimeCat(f: nat -> nat, a: seq<Token>, b: seq<Token>)
    ensures RetimeTokens(f, a + b) == RetimeTokens(f, a) + RetimeTokens(f, b)
    decreases |a|
  {
    if a == [] { assert a + b == b; } else {
      assert (a + b)[1..] == a[1..] + b;
      RetimeCat(f, a[1..], b);
    }
  }

  lemma {:induction false} RetimeCommutes(f: nat -> nat, st: State, xs: seq<Line>)
    ensures Tokens(st, Retime(f, xs)) == RetimeTokens(f, Tokens(st, xs))
    decreases |xs|
  {
    if xs != [] {
      var y := xs[0].(t := f(xs[0].t));
      assert Retime(f, xs)[1..] == Retime(f, xs[1..]);
      assert Step(st, y).0 == Step(st, xs[0]).0;
      RetimeCommutes(f, Step(st, xs[0]).0, xs[1..]);
      var e := Emit(Step(st, xs[0]).1);
      assert Emit(Step(st, y).1) == RetimeTokens(f, e);
      RetimeCat(f, e, Tokens(Step(st, xs[0]).0, xs[1..]));
    }
  }

  lemma {:induction false} RetimeTake(f: nat -> nat, ks: seq<Token>, max: nat)
    ensures Take(RetimeTokens(f, ks), max) == RetimeTokens(f, Take(ks, max))
  {
    if |ks| > max {
      RetimeCat(f, ks[..max], ks[max..]);
      assert ks[..max] + ks[max..] == ks;
    }
  }

  // ----- Waveforms of the standard -----------------------------------------------------------

  // A byte as sent, with the acknowledge of its ninth clock.
  datatype Byte = Byte(val: nat, ack: bool)

  // One transaction: address byte, data bytes, and whether it ends in a STOP or
  // in a repeated START that opens the next one.
  datatype Xfer = Xfer(addr: nat, rw: bool, ack: bool, data: seq<Byte>, stop: bool)

  predicate WFByte(b: Byte) { b.val < 256 }
  predicate WFXfer(x: Xfer) { x.addr < 128 && forall k | 0 <= k < |x.data| :: WFByte(x.data[k]) }

  // Any number of transactions, one behind the other.
  predicate WFBus(bus: seq<Xfer>) {
    forall k | 0 <= k < |bus| :: WFXfer(bus[k])
  }

  function L(scl: bool, sda: bool): Line { Line(0, scl, sda) }

  // Section 3.1.3: SDA is set up while SCL is low and held while it is high.
  function BitWave(b: bool): seq<Line> { [L(false, b), L(true, b), L(false, b)] }

  // The `k` low bits of `v`, most significant first.
  function BitsWave(v: nat, k: nat): seq<Line> {
    if k == 0 then [] else BitsWave(v / 2, k - 1) + BitWave(v % 2 == 1)
  }

  // Sections 3.1.5 and 3.1.6: eight bits, then the receiver pulls SDA low to acknowledge.
  function ByteWave(b: Byte): seq<Line> { BitsWave(b.val, 8) + BitWave(!b.ack) }

  function DataWave(ds: seq<Byte>): seq<Line> {
    if ds == [] then [] else ByteWave(ds[0]) + DataWave(ds[1..])
  }

  // Section 3.1.4: START from the idle bus, STOP, and repeated START.
  const START_WAVE := [L(true, false), L(false, false)]
  const STOP_WAVE := [L(false, false), L(true, false), L(true, true)]
  const RESTART_WAVE := [L(false, true), L(true, true)]

  function AddrByte(x: Xfer): Byte { Byte(2 * x.addr + (if x.rw then 1 else 0), x.ack) }

  function XferWave(x: Xfer): seq<Line> {
    START_WAVE + ByteWave(AddrByte(x)) + DataWave(x.data) + (if x.stop then STOP_WAVE else RESTART_WAVE)
  }

  function BusWave(bus: seq<Xfer>): seq<Line> {
    if bus == [] then [] else XferWave(bus[0]) + BusWave(bus[1..])
  }

  function DataTokens(ds: seq<Byte>): seq<Token> {
    if ds == [] then [] else [Token(DATA, ds[0].val, false, ds[0].ack, 0)] + DataTokens(ds[1..])
  }

  function XferTokens(x: Xfer): seq<Token> {
    [Token(START, 0, false, false, 0), Token(ADDR, x.addr, x.rw, x.ack, 0)] + DataTokens(x.data)
    + (if x.stop then [Token(STOP, 0, false, false, 0)] else [])
  }

  function BusTokens(bus: seq<Xfer>): seq<Token> {
    if bus == [] then [] else XferTokens(bus[0]) + BusTokens(bus[1..])
  }

  // ----- The decoder reads the waveform back ----------------------------------------------------

  // The bits of `v` that `k` clocks have carried.
  function Carried(v: nat, k: nat): nat {
    if k == 0 then 0 else 2 * Carried(v / 2, k - 1) + v % 2
  }

  function Pow2(k: nat): nat { if k == 0 then 1 else 2 * Pow2(k - 1) }

  lemma {:induction false} CarriedAll(v: nat, k: nat)
    requires v < Pow2(k)
    ensures Carried(v, k) == v
  {
    if k > 0 { CarriedAll(v / 2, k - 1); }
  }

  lemma Pow2Of8()
    ensures Pow2(8) == 256
  {
    assert Pow2(2) == 4 && Pow2(4) == 16 && Pow2(6) == 64;
  }

  // Inside a transaction with SCL low, as every byte starts and ends.
  predicate Clocking(st: State, bits: nat, byte: nat, idx: nat) {
    !st.scl && st.active && st.bits == bits && st.byte == byte && st.idx == idx
  }

  lemma BitRead(st: State, b: bool)
    requires !st.scl && st.active && st.bits < 8
    ensures Tokens(st, BitWave(b)) == []
    ensures Clocking(After(st, BitWave(b)), st.bits + 1, 2 * st.byte + (if b then 1 else 0), st.idx)
  {
    Three(st, L(false, b), L(true, b), L(false, b));
  }

  lemma AckRead(st: State, ack: bool)
    requires !st.scl && st.active && st.bits == 8
    ensures Tokens(st, BitWave(!ack)) == [ByteToken(st, L(true, !ack))]
    ensures Clocking(After(st, BitWave(!ack)), 0, 0, st.idx + 1)
  {
    Three(st, L(false, !ack), L(true, !ack), L(false, !ack));
  }

  lemma {:induction false} BitsRead(st: State, v: nat, k: nat)
    requires k <= 8 && Clocking(st, 0, 0, st.idx)
    ensures Tokens(st, BitsWave(v, k)) == []
    ensures Clocking(After(st, BitsWave(v, k)), k, Carried(v, k), st.idx)
    decreases k
  {
    if k > 0 {
      var w := BitsWave(v / 2, k - 1);
      BitsRead(st, v / 2, k - 1);
      TokensCat(st, w, BitWave(v % 2 == 1));
      BitRead(After(st, w), v % 2 == 1);
    }
  }

  lemma ByteRead(st: State, b: Byte)
    requires WFByte(b) && Clocking(st, 0, 0, st.idx)
    ensures Tokens(st, ByteWave(b))
         == [if st.idx == 0 then Token(ADDR, b.val / 2, b.val % 2 == 1, b.ack, 0)
             else Token(DATA, b.val, false, b.ack, 0)]
    ensures Clocking(After(st, ByteWave(b)), 0, 0, st.idx + 1)
  {
    var w := BitsWave(b.val, 8);
    BitsRead(st, b.val, 8);
    Pow2Of8();
    CarriedAll(b.val, 8);
    TokensCat(st, w, BitWave(!b.ack));
    AckRead(After(st, w), b.ack);
  }

  lemma {:induction false} DataRead(st: State, ds: seq<Byte>)
    requires (forall k | 0 <= k < |ds| :: WFByte(ds[k])) && st.idx > 0 && Clocking(st, 0, 0, st.idx)
    ensures Tokens(st, DataWave(ds)) == DataTokens(ds)
    ensures Clocking(After(st, DataWave(ds)), 0, 0, st.idx + |ds|)
    decreases |ds|
  {
    if ds != [] {
      ByteRead(st, ds[0]);
      TokensCat(st, ByteWave(ds[0]), DataWave(ds[1..]));
      DataRead(After(st, ByteWave(ds[0])), ds[1..]);
    }
  }

  // Both lines released, whether or not a transaction is open.
  predicate Released(st: State) { st.scl && st.sda }

  lemma StartRead(st: State)
    requires Released(st)
    ensures Tokens(st, START_WAVE) == [Token(START, 0, false, false, 0)]
    ensures Clocking(After(st, START_WAVE), 0, 0, 0)
  {
    Two(st, L(true, false), L(false, false));
  }

  lemma EndRead(st: State, stop: bool)
    requires Clocking(st, 0, 0, st.idx)
    ensures var w := if stop then STOP_WAVE else RESTART_WAVE;
      && Tokens(st, w) == (if stop then [Token(STOP, 0, false, false, 0)] else [])
      && Released(After(st, w)) && (stop ==> !After(st, w).active)
  {
    if stop {
      Three(st, L(false, false), L(true, false), L(true, true));
    } else {
      Two(st, L(false, true), L(true, true));
    }
  }

  lemma XferRead(st: State, x: Xfer)
    requires WFXfer(x) && Released(st)
    ensures Tokens(st, XferWave(x)) == XferTokens(x)
    ensures Released(After(st, XferWave(x)))
  {
    hide After, Tokens, Step, ByteWave, DataWave, DataTokens, Released;
    var a, b, c := START_WAVE, ByteWave(AddrByte(x)), DataWave(x.data);
    assert AddrByte(x).val / 2 == x.addr && (AddrByte(x).val % 2 == 1) == x.rw;
    var d := if x.stop then STOP_WAVE else RESTART_WAVE;
    StartRead(st);
    var s1 := After(st, a);
    ByteRead(s1, AddrByte(x));
    var s2 := After(s1, b);
    DataRead(s2, x.data);
    var s3 := After(s2, c);
    EndRead(s3, x.stop);
    TokensCat(st, a, b);
    TokensCat(st, a + b, c);
    TokensCat(st, a + b + c, d);
  }

  lemma {:induction false} BusRead(st: State, bus: seq<Xfer>)
    requires WFBus(bus) && Released(st)
    ensures Tokens(st, BusWave(bus)) == BusTokens(bus)
    decreases |bus|
  {
    if bus != [] {
      XferRead(st, bus[0]);
      TokensCat(st, XferWave(bus[0]), BusWave(bus[1..]));
      BusRead(After(st, XferWave(bus[0])), bus[1..]);
    }
  }

  // Samples of a bus waveform at any times, with any samples in between that
  // move neither line, decode to exactly the transactions that made it.
  lemma DecodeInvertsWave(bus: seq<Xfer>, xs: seq<Line>)
    requires WFBus(bus)
    requires Retime(t => 0, Moves(true, true, xs)) == Moves(true, true, BusWave(bus))
    ensures RetimeTokens(t => 0, Tokens(IDLE, xs)) == BusTokens(bus)
  {
    var f: nat -> nat := t => 0;
    StutterFree(IDLE, xs);
    StutterFree(IDLE, BusWave(bus));
    RetimeCommutes(f, IDLE, Moves(true, true, xs));
    BusRead(IDLE, bus);
  }
}
