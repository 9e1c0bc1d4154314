// i2c_decode (sdk/proto/i2c_decode.c): one pass over captured samples, each a
// time and a mask of channel levels, into a token buffer of fixed room.

module I2cDecode {
  import opened Wrappers
  import opened I2c

  // `t` is a 32-bit microsecond count; bit k of `levels` is channel k.
  datatype Sample = Sample(t: nat, levels: bv32)

  predicate High(levels: bv32, bit: nat)
    requires bit < 32
  {
    levels & ((1 as bv32) << bit) != 0
  }

  // The two bus lines of a sample.
  function View(s: Sample, sclBit: nat, sdaBit: nat): Line
    requires sclBit < 32 && sdaBit < 32
  {
    Line(s.t, High(s.levels, sclBit), High(s.levels, sdaBit))
  }

  function Views(ss: seq<Sample>, sclBit: nat, sdaBit: nat): (r: seq<Line>)
    requires sclBit < 32 && sdaBit < 32
    ensures |r| == |ss|
    decreases |ss|
  {
    if ss == [] then [] else [View(ss[0], sclBit, sdaBit)] + Views(ss[1..], sclBit, sdaBit)
  }

  lemma {:induction false} ViewAt(ss: seq<Sample>, sclBit: nat, sdaBit: nat, i: nat)
    requires sclBit < 32 && sdaBit < 32 && i < |ss|
    ensures Views(ss, sclBit, sdaBit)[i] == View(ss[i], sclBit, sdaBit)
    decreases |ss|
  {
    if i > 0 { ViewAt(ss[1..], sclBit, sdaBit, i - 1); }
  }

  // The body of the loop: the new state, and the token this sample completes.
  method OnSample(st: State, nscl: bool, nsda: bool, t: nat) returns (st': State, tok: Option<Token>)
    ensures (st', tok) == Step(st, Line(t, nscl, nsda))
  {
    var active, bits, byte, idx := st.active, st.bits, st.byte, st.idx;
    var pscl, psda := st.scl, st.sda;
    tok := None;
    // SDA moving while SCL stays high.
    if pscl && nscl && nsda != psda {
      if psda && !nsda {
        tok := Some(Token(START, 0, false, false, t));
        active, bits, byte, idx := true, 0, 0, 0;
      } else {
        tok := Some(Token(STOP, 0, false, false, t));
        active := false;
      }
    }
    // SCL rising inside a transaction.
    if !pscl && nscl && active {
      if bits < 8 {
        byte, bits := 2 * byte + (if nsda then 1 else 0), bits + 1;
      } else {
        tok := Some(if idx == 0 then Token(ADDR, byte / 2, byte % 2 == 1, !nsda, t)
                    else Token(DATA, byte, false, !nsda, t));
        bits, byte, idx := 0, 0, idx + 1;
      }
    }
    st' := State(nscl, nsda, active, bits, byte, idx);
  }

  // One sample gives at most one token, so the buffer is never overrun.
  method I2cDecode(s: array<Sample>, n: nat, sclBit: nat, sdaBit: nat, out: array<Token>, max: nat) returns (nt: nat)
    requires n <= s.Length && sclBit < 32 && sdaBit < 32 && max <= out.Length
    modifies out
    ensures nt <= max && out[..nt] == Take(Tokens(IDLE, Views(s[..n], sclBit, sdaBit)), max)
  {
    hide *;
    ghost var xs := Views(s[..n], sclBit, sdaBit);
    nt := 0;
    var st, i := IDLE, 0;
    assert xs[0..] == xs;
    assert out[..0] == [];
    while i < n && nt < max
      invariant i <= n && nt <= max
      invariant Tokens(IDLE, xs) == out[..nt] + Tokens(st, xs[i..])
    {
      ViewAt(s[..n], sclBit, sdaBit, i);
      ViewIs(s[i], sclBit, sdaBit);
      TokensAt(st, xs, i);
      ghost var done := out[..nt];
      var tok;
      st, tok := OnSample(st, High(s[i].levels, sclBit), High(s[i].levels, sdaBit), s[i].t);
      if tok.Some? {
        out[nt] := tok.value;
        nt := nt + 1;
      }
      EmitIs(tok);
      assert out[..nt] == done + Emit(tok);
      i := i + 1;
    }
    TokensEnd(st, xs[i..]);
    TakeCat(out[..nt], Tokens(st, xs[i..]), max);
  }

  lemma TokensAt(st: State, xs: seq<Line>, i: nat)
    requires i < |xs|
    ensures Tokens(st, xs[i..]) == Emit(Step(st, xs[i]).1) + Tokens(Step(st, xs[i]).0, xs[i + 1..])
  {
    assert xs[i..][1..] == xs[i + 1..];
  }

  lemma TokensEnd(st: State, xs: seq<Line>)
    ensures xs == [] ==> Tokens(st, xs) == []
  {}

  lemma TakeCat(a: seq<Token>, b: seq<Token>, max: nat)
    requires |a| <= max && (|a| < max ==> b == [])
    ensures Take(a + b, max) == a
  {}

  lemma ViewIs(s: Sample, sclBit: nat, sdaBit: nat)
    requires sclBit < 32 && sdaBit < 32
    ensures View(s, sclBit, sdaBit) == Line(s.t, High(s.levels, sclBit), High(s.levels, sdaBit))
  {}
}
