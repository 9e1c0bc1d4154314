// The LD2450 radar parser (sdk/sensor/libld2450.c): a byte-at-a-time framer that
// resynchronises on its header, and the decoder of a frame. The framer reports
// exactly what a splitter of the whole stream would, and decoding undoes the
// encoder of the demo mode (apps/user/radar/radar.c).

module Ld2450 {
  import opened Wrappers

  type Byte = x: nat | x < 256

  const HDR: seq<Byte> := [0xAA, 0xFF, 0x03, 0x00]
  const FRAME := 30

  datatype Target = Target(present: bool, x: int, y: int, speed: int, res: nat)

  // ----- Decoding -----------------------------------------------------------------------

  function Le16(lo: Byte, hi: Byte): (v: nat)
    ensures v < 0x1_0000
  {
    lo + 256 * hi
  }

  // Bit 15 set: plus the low 15 bits; clear: minus the value.
  function Sign15(raw: nat): int
    requires raw < 0x1_0000
  {
    if raw >= 0x8000 then raw - 0x8000 else 0 - raw
  }

  predicate AllZero(b: seq<Byte>) { forall k | 0 <= k < |b| :: b[k] == 0 }

  function DecodeBlock(b: seq<Byte>): Target
    requires |b| == 8
  {
    if AllZero(b) then Target(false, 0, 0, 0, 0)
    else Target(true, Sign15(Le16(b[0], b[1])), Sign15(Le16(b[2], b[3])), Sign15(Le16(b[4], b[5])), Le16(b[6], b[7]))
  }

  // The three targets of a frame, or none if header or tail are wrong.
  function DecodeFrame(f: seq<Byte>): Option<seq<Target>>
    requires |f| == FRAME
  {
    if f[..4] != HDR || f[28] != 0x55 || f[29] != 0xCC then None
    else Some([DecodeBlock(f[4..12]), DecodeBlock(f[12..20]), DecodeBlock(f[20..28])])
  }

  // A number of a target: the high byte carries the sign in its highest bit, set for
  // what is not negative.
  predicate Reads(lo: Byte, hi: Byte, v: int) {
    if hi >= 128 then v == 256 * (hi as int - 128) + lo as int else v == -256 * (hi as int) - lo as int
  }

  // Eight bytes and the target they stand for.
  predicate Stands(b: seq<Byte>, t: Target)
    requires |b| == 8
  {
    if b == [0, 0, 0, 0, 0, 0, 0, 0] then t == Target(false, 0, 0, 0, 0)
    else
      && t.present && Reads(b[0], b[1], t.x) && Reads(b[2], b[3], t.y) && Reads(b[4], b[5], t.speed)
      && t.res == 256 * (b[7] as int) + b[6] as int
  }

  lemma BlockStands(b: seq<Byte>)
    requires |b| == 8
    ensures Stands(b, DecodeBlock(b))
  {
    assert AllZero(b) <==> b == [0, 0, 0, 0, 0, 0, 0, 0];
  }

  // A frame is the bytes AA FF 03 00, three targets of eight bytes, and 55 CC; anything
  // else of thirty bytes is none.
  lemma FrameMeans(h: seq<Byte>, a: seq<Byte>, b: seq<Byte>, c: seq<Byte>, e: seq<Byte>)
    requires |h| == 4 && |a| == |b| == |c| == 8 && |e| == 2
    ensures var r := DecodeFrame(h + (a + (b + (c + e))));
      if h == [0xAA, 0xFF, 0x03, 0x00] && e == [0x55, 0xCC] then
        r.Some? && |r.value| == 3 && Stands(a, r.value[0]) && Stands(b, r.value[1]) && Stands(c, r.value[2])
      else r == None
  {
    hide DecodeBlock, Stands;
    var f := h + (a + (b + (c + e)));
    assert f[..4] == h && f[4..12] == a && f[12..20] == b && f[20..28] == c;
    assert f[28] == e[0] && f[29] == e[1];
    assert e == [0x55, 0xCC] <==> e[0] == 0x55 && e[1] == 0xCC;
    BlockStands(a); BlockStands(b); BlockStands(c);
  }

  // ----- The framer, on the bytes it holds --------------------------------------------------

  function Feed(p: seq<Byte>, b: Byte): (seq<Byte>, Option<seq<Target>>)
    requires |p| < FRAME
  {
    if |p| < 4 then (if b == HDR[|p|] then p + [b] else if b == HDR[0] then [b] else [], None)
    else if |p| + 1 < FRAME then (p + [b], None)
    else ([], DecodeFrame(p + [b]))
  }

  // What a stream of bytes reports, and what the framer holds behind it.
  function Reports(p: seq<Byte>, s: seq<Byte>): seq<seq<Target>>
    requires |p| < FRAME
    decreases |s|
  {
    if s == [] then [] else Emit(Feed(p, s[0]).1) + Reports(Feed(p, s[0]).0, s[1..])
  }

  function Held(p: seq<Byte>, s: seq<Byte>): seq<Byte>
    requires |p| < FRAME
    decreases |s|
  {
    if s == [] then p else Held(Feed(p, s[0]).0, s[1..])
  }

  // ----- The splitter of a whole stream -------------------------------------------------------

  // Find the next header, take 30 bytes, report them if they decode, go on behind them.
  function Split(s: seq<Byte>): seq<seq<Target>>
    decreases |s|
  {
    if |s| < 4 then []
    else if s[..4] == HDR then
      if |s| < FRAME then [] else Emit(DecodeFrame(s[..FRAME])) + Split(s[FRAME..])
    else Split(s[1..])
  }

  // The longest end of `s` that begins a header.
  function HeaderTail(s: seq<Byte>): (r: seq<Byte>)
    ensures |r| <= |s| && s[|s| - |r|..] == r
  {
    if s <= HDR then s else HeaderTail(s[1..])
  }

  // What the splitter leaves: an unfinished frame, or the start of a header.
  function Leftover(s: seq<Byte>): seq<Byte>
    decreases |s|
  {
    if |s| < 4 then HeaderTail(s)
    else if s[..4] == HDR then if |s| < FRAME then s else Leftover(s[FRAME..])
    else Leftover(s[1..])
  }

  lemma {:induction false} HeaderTailIsLongest(s: seq<Byte>, k: nat)
    requires k <= |s| && k <= 4 && s[|s| - k..] == HDR[..k]
    ensures k <= |HeaderTail(s)| && HeaderTail(s) <= HDR
    decreases |s|
  {
    assert s[0..] == s;
    if s <= HDR {
    } else {
      assert s[1..][|s| - 1 - k..] == s[|s| - k..];
      HeaderTailIsLongest(s[1..], k);
    }
  }

  // Bytes at which no header starts can be dropped.
  lemma {:induction false} DropJunk(s: seq<Byte>, j: nat)
    requires j <= |s| && forall i | 0 <= i < j :: !(s[i..] <= HDR) && !(HDR <= s[i..])
    ensures Split(s) == Split(s[j..]) && Leftover(s) == Leftover(s[j..])
    decreases j
  {
    if j > 0 {
      assert !(s[0..] <= HDR) && s[0..] == s;
      forall i | 0 <= i < j - 1 ensures !(s[1..][i..] <= HDR) && !(HDR <= s[1..][i..]) {
        assert s[1..][i..] == s[i + 1..];
      }
      DropJunk(s[1..], j - 1);
      assert s[1..][j - 1..] == s[j..];
      DropOne(s);
    }
  }

  lemma DropOne(s: seq<Byte>)
    requires s != [] && !(s <= HDR) && !(HDR <= s)
    ensures Split(s) == Split(s[1..]) && Leftover(s) == Leftover(s[1..])
  {
    if |s| >= 4 { assert s[..4] != HDR; }
  }

  // What the framer may hold: the start of a header, or an unfinished frame.
  predicate Holding(p: seq<Byte>) { |p| < FRAME && (p <= HDR || HDR <= p) }

  // A byte that breaks a header match: nothing before it starts a header.
  lemma Mismatch(p: seq<Byte>, b: Byte, t: seq<Byte>)
    requires |p| < 4 && p <= HDR && b != HDR[|p|]
    ensures var s := p + [b] + t; var j := if b == HDR[0] then |p| else |p| + 1;
      Split(s) == Split(s[j..]) && Leftover(s) == Leftover(s[j..])
  {
    var s := p + [b] + t;
    var j := if b == HDR[0] then |p| else |p| + 1;
    forall i | 0 <= i < j ensures !(s[i..] <= HDR) && !(HDR <= s[i..]) {
      if i == 0 && |p| > 0 {
        assert s[0..][|p|] == b;
      } else {
        assert s[i..][0] == s[i];
      }
    }
    DropJunk(s, j);
  }

  // The framer holds a stream's leftover and reports what the splitter reports.
  lemma {:induction false} FramerIsSplitter(p: seq<Byte>, s: seq<Byte>)
    requires Holding(p)
    ensures Reports(p, s) == Split(p + s) && Held(p, s) == Leftover(p + s)
    decreases |s|
  {
    hide Split, Leftover, DecodeFrame, Emit;
    if s == [] {
      assert p + s == p;
      HoldingIsLeftover(p);
    } else {
      var b, t := s[0], s[1..];
      var q := Feed(p, b).0;
      assert p + s == p + [b] + t;
      EmitIs(Feed(p, b).1);
      assert [] + Reports(q, t) == Reports(q, t);
      if |p| < 4 {
        if b == HDR[|p|] {
          assert HDR[..|p|] + [b] == HDR[..|p| + 1];
          FramerIsSplitter(q, t);
        } else {
          Mismatch(p, b, t);
          FramerIsSplitter(q, t);
          assert (p + [b] + t)[|p|..] == [b] + t;
          assert (p + [b] + t)[|p| + 1..] == [] + t;
        }
      } else if |p| + 1 < FRAME {
        FramerIsSplitter(q, t);
      } else {
        var f := p + [b];
        WholeFrame(f, t);
        FramerIsSplitter([], t);
        assert [] + t == t;
      }
    }
  }

  lemma WholeFrame(f: seq<Byte>, t: seq<Byte>)
    requires |f| == FRAME && HDR <= f
    ensures Split(f + t) == Emit(DecodeFrame(f)) + Split(t) && Leftover(f + t) == Leftover(t)
  {
    hide DecodeFrame;
    assert (f + t)[..FRAME] == f && (f + t)[FRAME..] == t;
    assert f[..4] == HDR && (f + t)[..4] == HDR;
  }

  lemma HoldingIsLeftover(p: seq<Byte>)
    requires Holding(p)
    ensures Split(p) == [] && Leftover(p) == p
  {
    if |p| >= 4 { assert p[..4] == HDR; }
  }

  // From a fresh parser: the frames of the splitter, and while it hunts for a
  // header it holds the longest header start that ends the bytes left over.
  lemma StreamReports(s: seq<Byte>)
    ensures Reports([], s) == Split(s) && Held([], s) == Leftover(s)
  {
    assert [] + s == s;
    FramerIsSplitter([], s);
  }

  // ----- Encoding ------------------------------------------------------------------------

  // enc15 and enc_block of the demo mode.
  function Enc15(v: int): (r: nat)
    requires -0x8000 < v < 0x8000
    ensures r < 0x1_0000 && (r >= 0x8000 <==> v >= 0)
  {
    if v >= 0 then 0x8000 + v else -v
  }

  const DEMO_RES := 320

  predicate InField(v: int) { -0x8000 < v < 0x8000 }

  function EncBlock(x: int, y: int, v: int): (b: seq<Byte>)
    requires InField(x) && InField(y) && InField(v)
    ensures |b| == 8
  {
    var ex, ey, ev := Enc15(x), Enc15(y), Enc15(v);
    [ex % 256, ex / 256, ey % 256, ey / 256, ev % 256, ev / 256, 0x40, 0x01]
  }

  lemma Sign15InvertsEnc15(v: int)
    requires InField(v)
    ensures Sign15(Enc15(v)) == v
  {}

  lemma BlockRoundTrip(x: int, y: int, v: int)
    requires InField(x) && InField(y) && InField(v)
    ensures DecodeBlock(EncBlock(x, y, v)) == Target(true, x, y, v, DEMO_RES)
  {
    var b := EncBlock(x, y, v);
    assert b[7] == 1 && !AllZero(b);
    Sign15InvertsEnc15(x); Sign15InvertsEnc15(y); Sign15InvertsEnc15(v);
  }

  // A demo target: present with coordinates and speed, or an empty slot.
  datatype Demo = Absent | Present(x: int, y: int, v: int)

  predicate WFDemo(d: Demo) { d.Present? ==> InField(d.x) && InField(d.y) && InField(d.v) }

  function DemoBlock(d: Demo): (b: seq<Byte>)
    requires WFDemo(d)
    ensures |b| == 8
  {
    if d.Absent? then [0, 0, 0, 0, 0, 0, 0, 0] else EncBlock(d.x, d.y, d.v)
  }

  function DemoTarget(d: Demo): Target {
    match d
    case Absent => Target(false, 0, 0, 0, 0)
    case Present(x, y, v) => Target(true, x, y, v, DEMO_RES)
  }

  function DemoFrame(a: Demo, b: Demo, c: Demo): (f: seq<Byte>)
    requires WFDemo(a) && WFDemo(b) && WFDemo(c)
    ensures |f| == FRAME && HDR <= f
  {
    HDR + DemoBlock(a) + DemoBlock(b) + DemoBlock(c) + [0x55, 0xCC]
  }

  lemma DemoBlockDecodes(d: Demo)
    requires WFDemo(d)
    ensures DecodeBlock(DemoBlock(d)) == DemoTarget(d)
  {
    if d.Present? { BlockRoundTrip(d.x, d.y, d.v); }
  }

  // An encoded frame, behind bytes that hold no header start, is reported as the
  // targets that were encoded.
  lemma DemoFrameReported(junk: seq<Byte>, a: Demo, b: Demo, c: Demo)
    requires WFDemo(a) && WFDemo(b) && WFDemo(c)
    requires forall i | 0 <= i < |junk| :: !(HDR <= (junk + DemoFrame(a, b, c))[i..])
    ensures Reports([], junk + DemoFrame(a, b, c)) == [[DemoTarget(a), DemoTarget(b), DemoTarget(c)]]
  {
    hide DecodeBlock, DemoBlock, Split, Leftover, Reports, DemoTarget, Held;
    var f := DemoFrame(a, b, c);
    var s := junk + f;
    StreamReports(s);
    forall i | 0 <= i < |junk| ensures !(s[i..] <= HDR) { assert |s[i..]| > 4; }
    DropJunk(s, |junk|);
    assert s[|junk|..] == f && f + [] == f;
    WholeFrame(f, []);
    assert Split([]) == [] by { HoldingIsLeftover([]); }
    DemoBlockDecodes(a); DemoBlockDecodes(b); DemoBlockDecodes(c);
    DemoDecodes(a, b, c);
  }

  lemma DemoDecodes(a: Demo, b: Demo, c: Demo)
    requires WFDemo(a) && WFDemo(b) && WFDemo(c)
    ensures DecodeFrame(DemoFrame(a, b, c))
         == Some([DecodeBlock(DemoBlock(a)), DecodeBlock(DemoBlock(b)), DecodeBlock(DemoBlock(c))])
  {
    hide DecodeBlock, DemoBlock;
    var f := DemoFrame(a, b, c);
    assert f[..4] == HDR && f[28] == 0x55 && f[29] == 0xCC;
    assert f[4..12] == DemoBlock(a) && f[12..20] == DemoBlock(b) && f[20..28] == DemoBlock(c);
  }

  // ----- The parser object ------------------------------------------------------------------

  class Parser {
    const buf: array<Byte>
    var pos: nat
    var out: seq<Target>

    ghost predicate Valid()
      reads this, buf
    {
      buf.Length == FRAME && pos < FRAME && Holding(buf[..pos])
    }

    constructor ()
      ensures Valid() && buf[..pos] == [] && fresh(buf) && out == []
    {
      buf := new Byte[FRAME](i => 0);
      pos, out := 0, [];
    }

    // ld2450_parser_feed: reports whether this byte completed a valid frame; the
    // decoded targets are written only then.
    method FeedByte(b: Byte) returns (done: bool)
      requires Valid()
      modifies this`pos, this`out, buf
      ensures Valid()
      ensures buf[..pos] == Feed(old(buf[..pos]), b).0
      ensures done <==> Feed(old(buf[..pos]), b).1.Some?
      ensures out == if done then Feed(old(buf[..pos]), b).1.value else old(out)
    {
      hide DecodeFrame;
      ghost var p := buf[..pos];
      if pos < 4 {
        if b == HDR[pos] {
          buf[pos] := b;
          pos := pos + 1;
          assert buf[..pos] == p + [b];
          assert HDR[..pos - 1] + [b] == HDR[..pos];
        } else {
          pos := if b == HDR[0] then 1 else 0;
          buf[0] := b;
          assert buf[..pos] == if b == HDR[0] then [b] else [];
        }
        return false;
      }
      buf[pos] := b;
      pos := pos + 1;
      assert buf[..pos] == p + [b];
      if pos < FRAME { return false; }
      var r := DecodeFrame(buf[..]);
      assert buf[..] == buf[..pos];
      pos := 0;
      if r.None? { return false; }
      out := r.value;
      return true;
    }

    // A whole chunk, byte by byte: the frames reported are the splitter's.
    method FeedAll(s: seq<Byte>) returns (frames: seq<seq<Target>>)
      requires Valid()
      modifies this`pos, this`out, buf
      ensures Valid()
      ensures frames == Split(old(buf[..pos]) + s) && buf[..pos] == Leftover(old(buf[..pos]) + s)
    {
      hide Split, Leftover, Feed, Emit, Holding;
      ghost var p := buf[..pos];
      FramerIsSplitter(p, s);
      frames := [];
      var i := 0;
      assert s[0..] == s;
      while i < |s|
        invariant i <= |s| && Valid()
        invariant frames + Reports(buf[..pos], s[i..]) == Reports(p, s)
        invariant Held(buf[..pos], s[i..]) == Held(p, s)
      {
        ghost var q := buf[..pos];
        assert s[i..][0] == s[i] && s[i..][1..] == s[i + 1..];
        var done := FeedByte(s[i]);
        EmitIs(Feed(q, s[i]).1);
        ghost var rest := Reports(buf[..pos], s[i + 1..]);
        if done {
          assert frames + ([out] + rest) == frames + [out] + rest;
          frames := frames + [out];
        } else {
          assert frames + ([] + rest) == frames + rest;
        }
        i := i + 1;
      }
    }
  }
}
