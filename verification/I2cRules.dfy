// What holds of the decoder (sdk/proto/i2c_decode.c) on any samples at all, not only on
// waveforms of a well-behaved bus: which conditions it reports, and what order its
// tokens come in.

module I2cRules {
  import opened Wrappers
  import opened I2c

  // ----- START and STOP ------------------------------------------------------------

  // SDA moves while SCL is high before and after: a START if it falls, a STOP if it
  // rises. The levels before the first sample are given.
  function Conditions(scl: bool, sda: bool, xs: seq<Line>): seq<Token>
    decreases |xs|
  {
    if xs == [] then []
    else
      var x := xs[0];
      (if scl && x.scl && sda && !x.sda then [Token(START, 0, false, false, x.t)]
       else if scl && x.scl && !sda && x.sda then [Token(STOP, 0, false, false, x.t)] else [])
      + Conditions(x.scl, x.sda, xs[1..])
  }

  predicate IsByte(k: Token) { k.kind == ADDR || k.kind == DATA }

  function Others(ks: seq<Token>): seq<Token> {
    if ks == [] then [] else (if IsByte(ks[0]) then [] else [ks[0]]) + Others(ks[1..])
  }

  lemma {:induction false} OthersCat(a: seq<Token>, b: seq<Token>)
    ensures Others(a + b) == Others(a) + Others(b)
    decreases |a|
  {
    if a == [] {
      assert a + b == b;
    } else {
      assert (a + b)[1..] == a[1..] + b;
      OthersCat(a[1..], b);
    }
  }

  lemma OthersOne(o: Option<Token>)
    ensures Others(Emit(o)) == if o.Some? && !IsByte(o.value) then [o.value] else []
  {
    EmitIs(o);
    if o.Some? { assert [o.value][1..] == []; }
  }

  // From any state the STARTs and STOPs are exactly the conditions on the bus.
  lemma {:induction false} ConditionsExactly(st: State, xs: seq<Line>)
    ensures Others(Tokens(st, xs)) == Conditions(st.scl, st.sda, xs)
    decreases |xs|
  {
    if xs != [] {
      var (next, tok) := Step(st, xs[0]);
      ConditionsExactly(next, xs[1..]);
      OthersCat(Emit(tok), Tokens(next, xs[1..]));
      OthersOne(tok);
    }
  }

  // ----- The order of the tokens -----------------------------------------------------

  // Outside a transaction, behind its START, and behind its address.
  datatype Phase = Closed | Opened | Addressed

  function PhaseOf(st: State): Phase {
    if !st.active then Closed else if st.idx == 0 then Opened else Addressed
  }

  // START and STOP may come at any time; the first byte behind a START is the address
  // and the others are data, and there is no byte outside a transaction.
  predicate Ordered(p: Phase, ks: seq<Token>)
    decreases |ks|
  {
    ks == [] ||
    match ks[0].kind
    case START => Ordered(Opened, ks[1..])
    case STOP => Ordered(Closed, ks[1..])
    case ADDR => p == Opened && Ordered(Addressed, ks[1..])
    case DATA => p == Addressed && Ordered(Addressed, ks[1..])
  }

  lemma {:induction false} AlwaysOrdered(st: State, xs: seq<Line>)
    ensures Ordered(PhaseOf(st), Tokens(st, xs))
    decreases |xs|
  {
    if xs != [] {
      var (next, tok) := Step(st, xs[0]);
      AlwaysOrdered(next, xs[1..]);
      EmitIs(tok);
      if tok.Some? { assert ([tok.value] + Tokens(next, xs[1..]))[1..] == Tokens(next, xs[1..]); }
      else { assert [] + Tokens(next, xs[1..]) == Tokens(next, xs[1..]); }
    }
  }

  // So each byte has a START before it, with no STOP in between.
  lemma {:induction false} ByteOpened(p: Phase, ks: seq<Token>, k: nat) returns (j: int)
    requires Ordered(p, ks) && k < |ks| && IsByte(ks[k])
    ensures -1 <= j < k && (j == -1 ==> p != Closed) && (j >= 0 ==> ks[j].kind == START)
    ensures forall m | j < m < k :: ks[m].kind != STOP
    decreases k
  {
    if k == 0 {
      j := -1;
    } else {
      var q := match ks[0].kind case START => Opened case STOP => Closed case _ => Addressed;
      j := ByteOpened(q, ks[1..], k - 1);
      j := j + 1;
      forall m | j < m < k ensures ks[m].kind != STOP { assert ks[m] == ks[1..][m - 1]; }
      if j == 0 && ks[0].kind != START { j := -1; }
    }
  }

  lemma EveryByteInside(xs: seq<Line>, k: nat)
    requires k < |Tokens(IDLE, xs)| && IsByte(Tokens(IDLE, xs)[k])
    ensures var ks := Tokens(IDLE, xs);
      exists j :: 0 <= j < k && ks[j].kind == START && forall m | j < m < k :: ks[m].kind != STOP
  {
    var ks := Tokens(IDLE, xs);
    AlwaysOrdered(IDLE, xs);
    var j := ByteOpened(Closed, ks, k);
    assert 0 <= j < k && ks[j].kind == START;
  }

  // SDA falls between the sample before and the i-th one, with SCL high at both.
  predicate StartAt(scl: bool, sda: bool, xs: seq<Line>, i: nat)
    requires i < |xs|
  {
    (if i == 0 then scl && sda else xs[i - 1].scl && xs[i - 1].sda) && xs[i].scl && !xs[i].sda
  }

  ghost predicate NoStart(scl: bool, sda: bool, xs: seq<Line>) {
    forall i | 0 <= i < |xs| :: !StartAt(scl, sda, xs, i)
  }

  // Outside a transaction, samples without a START condition give no byte, whatever
  // SCL does.
  lemma {:induction false} NoStartNoByte(st: State, xs: seq<Line>)
    requires !st.active && NoStart(st.scl, st.sda, xs)
    ensures forall k | 0 <= k < |Tokens(st, xs)| :: !IsByte(Tokens(st, xs)[k])
    decreases |xs|
  {
    if xs != [] {
      var (next, tok) := Step(st, xs[0]);
      var tail := xs[1..];
      assert !StartAt(st.scl, st.sda, xs, 0);
      forall i | 0 <= i < |tail| ensures !StartAt(next.scl, next.sda, tail, i) {
        assert StartAt(next.scl, next.sda, tail, i) == StartAt(st.scl, st.sda, xs, i + 1);
      }
      NoStartNoByte(next, tail);
      EmitIs(tok);
    }
  }

  // ----- The clocks of a byte ----------------------------------------------------------

  // Rising edges of SCL in the samples.
  function Rises(scl: bool, xs: seq<Line>): nat
    decreases |xs|
  {
    if xs == [] then 0 else (if !scl && xs[0].scl then 1 else 0) + Rises(xs[0].scl, xs[1..])
  }

  function Bytes(ks: seq<Token>): nat {
    if ks == [] then 0 else (if IsByte(ks[0]) then 1 else 0) + Bytes(ks[1..])
  }

  lemma {:induction false} BytesCat(a: seq<Token>, b: seq<Token>)
    ensures Bytes(a + b) == Bytes(a) + Bytes(b)
    decreases |a|
  {
    if a == [] {
      assert a + b == b;
    } else {
      assert (a + b)[1..] == a[1..] + b;
      BytesCat(a[1..], b);
    }
  }

  lemma BytesOne(o: Option<Token>)
    ensures Bytes(Emit(o)) == if o.Some? && IsByte(o.value) then 1 else 0
  {
    EmitIs(o);
    if o.Some? { assert [o.value][1..] == []; }
  }

  // Inside a transaction that no condition cuts short there is one byte for each nine
  // clocks.
  lemma {:induction false} NineClocks(st: State, xs: seq<Line>)
    requires st.active && st.bits <= 8 && Conditions(st.scl, st.sda, xs) == []
    ensures Bytes(Tokens(st, xs)) == (st.bits + Rises(st.scl, xs)) / 9
    decreases |xs|
  {
    if xs != [] {
      var (next, tok) := Step(st, xs[0]);
      NineClocks(next, xs[1..]);
      BytesCat(Emit(tok), Tokens(next, xs[1..]));
      BytesOne(tok);
    }
  }

  // An address has seven bits and data has eight, on any samples.
  predicate Fits(k: Token) {
    (k.kind == ADDR ==> k.val < 128) && (k.kind == DATA ==> k.val < 256)
  }

  predicate Room(st: State) { st.bits <= 8 && st.byte < Pow2(st.bits) }

  lemma {:induction false} ValuesFit(st: State, xs: seq<Line>)
    requires Room(st)
    ensures forall k | 0 <= k < |Tokens(st, xs)| :: Fits(Tokens(st, xs)[k])
    decreases |xs|
  {
    if xs != [] {
      var (next, tok) := Step(st, xs[0]);
      Pow2Of8();
      assert Pow2(0) == 1;
      ValuesFit(next, xs[1..]);
      EmitIs(tok);
    }
  }
}
