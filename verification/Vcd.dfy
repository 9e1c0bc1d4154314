// The VCD files a capture is saved to (apps/user/i2cscope/sniff.c) and read
// back from (apps/user/waves/waves.c). Printer and parser are two programs; the
// result here is that they agree, so the decode of a reloaded file is the decode
// of the capture it came from.

module Vcd {
  import opened Chars
  import opened Text
  import opened Decimal
  import opened I2c
  import opened I2cDecode

  const U32 := 0x1_0000_0000
  const MAX_CH := 8
  const MAX_SAMP := 1024
  const MAX_TOK := 256
  const LINE_MAX := 96

  // ----- Printing ---------------------------------------------------------------------

  const CH_SCL := 0
  const CH_SDA := 1

  // The four definition lines and the idle state, one string a line.
  const HEAD_SCALE := "$timescale 1 us $end"
  const HEAD_SCL := "$var wire 1 ! SCL $end"
  const HEAD_SDA := "$var wire 1 \" SDA $end"
  const HEAD_END := "$enddefinitions $end"
  const HEADER := [HEAD_SCALE, HEAD_SCL, HEAD_SDA, HEAD_END]
  const IDLE_LINES: seq<string> := ["#0", "1!", "1\""]

  // Times are 32-bit and relative to the first edge.
  function Rel(t: nat, t0: nat): (r: nat)
    ensures r < U32
  {
    (t as int - t0 as int) % U32
  }

  function Bin(b: bool): char { if b then '1' else '0' }

  // The lines one moving sample prints: its time, then each line that moved.
  function EdgeLines(x: Line, scl: bool, sda: bool, t0: nat): seq<string> {
    [['#'] + Dec(Rel(x.t, t0))]
    + (if x.scl != scl then [[Bin(x.scl), '!']] else [])
    + (if x.sda != sda then [[Bin(x.sda), '"']] else [])
  }

  function Body(xs: seq<Line>, scl: bool, sda: bool, t0: nat): seq<string>
    decreases |xs|
  {
    if xs == [] then []
    else if xs[0].scl == scl && xs[0].sda == sda then Body(xs[1..], scl, sda, t0)
    else EdgeLines(xs[0], scl, sda, t0) + Body(xs[1..], xs[0].scl, xs[0].sda, t0)
  }

  function FirstT(edges: seq<Sample>): nat { if edges == [] then 0 else edges[0].t }

  function VcdLines(edges: seq<Sample>): seq<string> {
    HEADER + IDLE_LINES + Body(Views(edges, CH_SCL, CH_SDA), true, true, FirstT(edges))
  }

  // ----- Reading lines ------------------------------------------------------------------

  // s[p..e] without carriage returns, cut at the line buffer.
  function Kept(s: string, p: nat, e: nat, room: nat): (r: string)
    requires p <= e <= |s|
    ensures |r| <= room && |r| <= e - p
    decreases e - p
  {
    if p == e then ""
    else if s[p] == '\r' || room == 0 then Kept(s, p + 1, e, room)
    else [s[p]] + Kept(s, p + 1, e, room - 1)
  }

  datatype ReadResult = EndOfFile | Got(line: string, next: nat)

  function ReadLine(s: string, p: nat): (r: ReadResult)
    requires p <= |s|
    ensures r.Got? ==> p < r.next <= |s| && |r.line| <= 95
  {
    var e := LineEnd(s, p);
    var line := Kept(s, p, e, LINE_MAX - 1);
    if e < |s| then Got(line, e + 1) else if line == "" then EndOfFile else Got(line, e)
  }

  // ----- Parsing --------------------------------------------------------------------------

  // What parse_vcd has gathered so far; a bit of -1 is a channel not seen.
  datatype Parse = Parse(defs: bool, pending: bool, curT: nat, mask: bv32,
                         samples: seq<Sample>, ids: seq<char>, sclBit: int, sdaBit: int)

  const START_PARSE := Parse(false, false, 0, 0, [], [], -1, -1)

  // The channel table is within its room, and the two bus channels are in it.
  predicate Fits(st: Parse) {
    |st.ids| <= 8 && -1 <= st.sclBit < |st.ids| && -1 <= st.sdaBit < |st.ids|
  }

  function SkipSpaces(s: string, p: nat): (q: nat)
    requires p <= |s|
    ensures p <= q <= |s| && (q < |s| ==> s[q] != ' ')
    decreases |s| - p
  {
    if p < |s| && s[p] == ' ' then SkipSpaces(s, p + 1) else p
  }

  function WordEnd(s: string, p: nat): (q: nat)
    requires p <= |s|
    ensures p <= q <= |s| && (p < |s| && s[p] != ' ' ==> p < q)
    decreases |s| - p
  {
    if p < |s| && s[p] != ' ' then WordEnd(s, p + 1) else p
  }

  // The first `k` space-separated words from `p` on.
  function Words(s: string, p: nat, k: nat): (ws: seq<string>)
    requires p <= |s|
    ensures |ws| <= k
    ensures forall i | 0 <= i < |ws| :: ws[i] != ""
    decreases k
  {
    var q := SkipSpaces(s, p);
    if k == 0 || q == |s| then [] else [s[q..WordEnd(s, q)]] + Words(s, WordEnd(s, q), k - 1)
  }

  predicate Starts(s: string, p: nat, k: string) { p + |k| <= |s| && s[p..p + |k|] == k }

  function BitOfId(ids: seq<char>, id: char, i: nat): (b: int)
    requires i <= |ids|
    ensures -1 <= b < |ids|
    decreases |ids| - i
  {
    if i == |ids| then -1 else if ids[i] == id then i else BitOfId(ids, id, i + 1)
  }

  function VarLine(st: Parse, line: string, p: nat): (r: Parse)
    requires p <= |line| && Fits(st)
    ensures Fits(r)
  {
    var ws := Words(line, p, 6);
    if |ws| >= 5 && |st.ids| < MAX_CH then
      st.(ids := st.ids + [ws[3][0]],
          sclBit := if ws[4] == "SCL" then |st.ids| else st.sclBit,
          sdaBit := if ws[4] == "SDA" then |st.ids| else st.sdaBit)
    else st
  }

  // The mask under the last timestamp becomes a sample.
  function Flush(st: Parse): (r: Parse)
    ensures |r.samples| == |st.samples| + if st.pending && |st.samples| < 1024 then 1 else 0
  {
    if st.pending && |st.samples| < MAX_SAMP then st.(samples := st.samples + [Sample(st.curT, st.mask)]) else st
  }

  function SetBit(mask: bv32, b: nat, on: bool): bv32
    requires b < 32
  {
    if on then mask | ((1 as bv32) << b) else mask & !((1 as bv32) << b)
  }

  function ParseLine(st: Parse, line: string): (r: Parse)
    requires Fits(st)
    ensures Fits(r)
  {
    var p := SkipBlanks(line, 0);
    if p == |line| then st
    else if !st.defs then
      if Starts(line, p, "$var") then VarLine(st, line, p)
      else if Starts(line, p, "$enddefinitions") then st.(defs := true)
      else st
    else if line[p] == '#' then
      Flush(st).(curT := ReadDigits(line, p + 1, 0).0 % U32, pending := true)
    else if (line[p] == '0' || line[p] == '1') && p + 1 < |line| then
      var b := BitOfId(st.ids, line[p + 1], 0);
      if b >= 0 then st.(mask := SetBit(st.mask, b, line[p] == '1')) else st
    else st
  }

  function ParseLines(st: Parse, lines: seq<string>): (r: Parse)
    requires Fits(st)
    ensures Fits(r)
    decreases |lines|
  {
    if lines == [] then st
    else ParseLines(ParseLine(st, lines[0]), lines[1..])
  }

  function ParseFrom(st: Parse, s: string, p: nat): (r: Parse)
    requires Fits(st) && p <= |s|
    ensures Fits(r)
    decreases |s| - p
  {
    match ReadLine(s, p)
    case EndOfFile => st
    case Got(line, q) => ParseFrom(ParseLine(st, line), s, q)
  }

  // parse_vcd on a whole file: the channels and the samples it ends up with.
  function ParseVcd(s: string): Parse { Flush(ParseFrom(START_PARSE, s, 0)) }

  // ----- Lines survive the file --------------------------------------------------------------

  predicate CleanLine(l: string) {
    |l| < LINE_MAX && Without(l, '\n') && Without(l, '\r')
  }

  lemma {:induction false} KeptAll(s: string, p: nat, l: string, room: nat)
    requires At(s, p, l) && |l| <= room && Without(l, '\r')
    ensures Kept(s, p, p + |l|, room) == l
    decreases |l|
  {
    if l != [] { KeptAll(s, p + 1, l[1..], room - 1); }
  }

  lemma ReadCleanLine(s: string, p: nat, l: string, tail: string)
    requires CleanLine(l) && At(s, p, l + ("\n" + tail))
    ensures p <= |s| && ReadLine(s, p) == Got(l, p + |l| + 1) && At(s, p + |l| + 1, tail)
  {
    hide At, Without, Kept, LineEnd;
    AtSplit(s, p, l, "\n" + tail);
    AtSplit(s, p + |l|, "\n", tail);
    AtOne(s, p + |l|, '\n');
    EndOfLine(s, p, l);
    KeptAll(s, p, l, LINE_MAX - 1);
  }

  lemma {:induction false} ParseJoined(st: Parse, s: string, p: nat, lines: seq<string>)
    requires Fits(st) && At(s, p, Join(lines)) && p + |Join(lines)| == |s|
    requires forall k | 0 <= k < |lines| :: CleanLine(lines[k])
    ensures ParseFrom(st, s, p) == ParseLines(st, lines)
    decreases |lines|
  {
    hide ParseLine, At, CleanLine;
    if lines == [] {
      EmptyRead(s);
    } else {
      ReadCleanLine(s, p, lines[0], Join(lines[1..]));
      ParseJoined(ParseLine(st, lines[0]), s, p + |lines[0]| + 1, lines[1..]);
    }
  }

  lemma EmptyRead(s: string)
    ensures ReadLine(s, |s|) == EndOfFile
  {}

  lemma {:induction false} ParseCat(st: Parse, a: seq<string>, b: seq<string>)
    requires Fits(st)
    ensures ParseLines(st, a + b) == ParseLines(ParseLines(st, a), b)
    decreases |a|
  {
    hide ParseLine;
    if a == [] { assert a + b == b; } else {
      assert (a + b)[1..] == a[1..] + b;
      ParseCat(ParseLine(st, a[0]), a[1..], b);
    }
  }

  // ----- The header -------------------------------------------------------------------------

  predicate PlainWord(w: string) { w != "" && Without(w, ' ') }

  lemma {:induction false} WordEndOf(s: string, p: nat, w: string)
    requires At(s, p, w) && Without(w, ' ') && (p + |w| == |s| || s[p + |w|] == ' ')
    ensures WordEnd(s, p) == p + |w|
    decreases |w|
  {
    if w != "" { WordEndOf(s, p + 1, w[1..]); }
  }

  // One word and the single space behind it.
  lemma WordStep(s: string, p: nat, w: string, tail: string, k: nat)
    requires At(s, p, w + (" " + tail)) && PlainWord(w) && k > 0
    ensures p + |w| + 1 <= |s| && At(s, p + |w| + 1, tail)
    ensures Words(s, p, k) == [w] + Words(s, p + |w| + 1, k - 1)
  {
    hide At, Words, Without, WordEnd;
    AtSplit(s, p, w, " " + tail);
    AtSplit(s, p + |w|, " ", tail);
    AtOne(s, p + |w|, ' ');
    WordEndOf(s, p, w);
    AtFits(s, p, w);
    FirstNotSpace(s, p, w);
    WordsUnroll(s, p, k);
    WordsAfterSpace(s, p + |w|, k - 1);
  }

  lemma FirstNotSpace(s: string, p: nat, w: string)
    requires At(s, p, w) && PlainWord(w)
    ensures p < |s| && s[p] != ' '
  {}

  lemma WordsUnroll(s: string, p: nat, k: nat)
    requires p < |s| && s[p] != ' ' && k > 0
    ensures Words(s, p, k) == [s[p..WordEnd(s, p)]] + Words(s, WordEnd(s, p), k - 1)
  {}

  lemma WordsAfterSpace(s: string, p: nat, k: nat)
    requires p < |s| && s[p] == ' '
    ensures Words(s, p, k) == Words(s, p + 1, k)
  {}

  lemma LastWord(s: string, p: nat, w: string, k: nat)
    requires At(s, p, w) && PlainWord(w) && k > 0 && p + |w| == |s|
    ensures Words(s, p, k) == [w]
  {
    hide Words, Without, WordEnd;
    WordEndOf(s, p, w);
    AtFits(s, p, w);
    FirstNotSpace(s, p, w);
    WordsUnroll(s, p, k);
    WordsAtEnd(s, k - 1);
    assert [w] + [] == [w];
  }

  lemma WordsAtEnd(s: string, k: nat)
    ensures Words(s, |s|, k) == []
  {}

  function VarDef(id: char, name: string): string {
    "$var" + (" " + ("wire" + (" " + ("1" + (" " + ([id] + (" " + (name + (" " + "$end")))))))))
  }

  lemma VarWords(id: char, name: string)
    requires id != ' ' && PlainWord(name)
    ensures Words(VarDef(id, name), 0, 6) == ["$var", "wire", "1", [id], name, "$end"]
  {
    hide At, Words;
    var s := VarDef(id, name);
    assert [] + s + [] == s;
    AtHere([], s, []);
    var t5 := name + (" " + "$end");
    var t4 := [id] + (" " + t5);
    var t3 := "1" + (" " + t4);
    var t2 := "wire" + (" " + t3);
    WordStep(s, 0, "$var", t2, 6);
    WordStep(s, 5, "wire", t3, 5);
    WordStep(s, 10, "1", t4, 4);
    WordStep(s, 12, [id], t5, 3);
    WordStep(s, 14, name, "$end", 2);
    LastWord(s, 15 + |name|, "$end", 1);
  }

  lemma VarParse(st: Parse, id: char, name: string)
    requires Fits(st) && !st.defs && |st.ids| < MAX_CH && id != ' ' && PlainWord(name)
    ensures ParseLine(st, VarDef(id, name))
         == st.(ids := st.ids + [id],
                sclBit := if name == "SCL" then |st.ids| else st.sclBit,
                sdaBit := if name == "SDA" then |st.ids| else st.sdaBit)
  {
    hide Words;
    var s := VarDef(id, name);
    VarWords(id, name);
    assert s[0] == '$' && SkipBlanks(s, 0) == 0;
    assert s[0..4] == "$var";
  }

  lemma OtherDollar(st: Parse, s: string)
    requires Fits(st) && !st.defs && |s| >= 4 && s[0] == '$' && s[1] != 'v'
    ensures ParseLine(st, s) == if Starts(s, 0, "$enddefinitions") then st.(defs := true) else st
  {
    assert SkipBlanks(s, 0) == 0;
    assert s[0..4][1] == s[1] && "$var"[1] == 'v';
  }

  // After the header both channels are known and values are read.
  const AFTER_HEADER := Parse(true, false, 0, 0, [], ['!', '"'], 0, 1)

  const SEEN_SCL := Parse(false, false, 0, 0, [], ['!'], 0, -1)
  const SEEN_BOTH := Parse(false, false, 0, 0, [], ['!', '"'], 0, 1)

  lemma ScaleParse()
    ensures ParseLine(START_PARSE, HEAD_SCALE) == START_PARSE
  {
    hide ParseLine, Words;
    OtherDollar(START_PARSE, HEAD_SCALE);
    assert HEAD_SCALE[0..15][1] == 't' && "$enddefinitions"[1] == 'e';
  }

  lemma ChannelParse()
    ensures ParseLine(START_PARSE, HEAD_SCL) == SEEN_SCL
    ensures ParseLine(SEEN_SCL, HEAD_SDA) == SEEN_BOTH
  {
    hide ParseLine, Words;
    assert HEAD_SCL == VarDef('!', "SCL");
    assert HEAD_SDA == VarDef('"', "SDA");
    VarParse(START_PARSE, '!', "SCL");
    VarParse(SEEN_SCL, '"', "SDA");
  }

  lemma EndParse()
    ensures ParseLine(SEEN_BOTH, HEAD_END) == AFTER_HEADER
  {
    hide ParseLine, Words;
    assert HEAD_END[1] == 'e';
    OtherDollar(SEEN_BOTH, HEAD_END);
    assert HEAD_END[0..15] == "$enddefinitions";
  }

  lemma HeaderParse()
    ensures ParseLines(START_PARSE, HEADER) == AFTER_HEADER
  {
    hide ParseLine, ParseLines;
    ScaleParse(); ChannelParse(); EndParse();
    ParseFour(START_PARSE, HEAD_SCALE, HEAD_SCL, HEAD_SDA, HEAD_END);
  }

  lemma ParseOne(st: Parse, a: string)
    requires Fits(st)
    ensures ParseLines(st, [a]) == ParseLine(st, a)
  {
    hide ParseLine;
    assert ParseLines(ParseLine(st, a), []) == ParseLine(st, a);
  }

  lemma ParseTwo(st: Parse, a: string, b: string)
    requires Fits(st)
    ensures ParseLines(st, [a, b]) == ParseLine(ParseLine(st, a), b)
  {
    hide ParseLine;
    ParseOne(st, a); ParseOne(ParseLine(st, a), b);
    ParseCat(st, [a], [b]);
    assert [a] + [b] == [a, b];
  }

  lemma ParseFour(st: Parse, a: string, b: string, c: string, d: string)
    requires Fits(st)
    ensures ParseLines(st, [a, b, c, d]) == ParseLine(ParseLine(ParseLine(ParseLine(st, a), b), c), d)
  {
    hide ParseLine;
    var st2 := ParseLine(ParseLine(st, a), b);
    ParseTwo(st, a, b); ParseTwo(st2, c, d);
    ParseCat(st, [a, b], [c, d]);
    assert [a, b] + [c, d] == [a, b, c, d];
  }

  // ----- The value changes --------------------------------------------------------------------

  // The channel mask of a pair of levels: SCL is bit 0, SDA bit 1.
  function Mask(scl: bool, sda: bool): bv32 {
    (if scl then 1 else 0) | (if sda then 2 else 0)
  }

  // The parser has seen both channels and a timestamp, and holds these levels.
  predicate Tracks(st: Parse, scl: bool, sda: bool) {
    st.defs && st.pending && st.ids == ['!', '"'] && st.sclBit == 0 && st.sdaBit == 1 && st.mask == Mask(scl, sda)
  }

  lemma HashLine(st: Parse, n: nat)
    requires Fits(st) && st.defs && n < U32
    ensures ParseLine(st, ['#'] + Dec(n)) == Flush(st).(curT := n, pending := true)
  {
    hide Words, VarLine, Starts, SetBit, Dec, At;
    var l := ['#'] + Dec(n);
    assert SkipBlanks(l, 0) == 0;
    assert l + [] == l;
    AtHere(['#'], Dec(n), []);
    ReadDec(l, 1, n);
  }

  lemma ValueLine(st: Parse, b: nat, on: bool)
    requires Fits(st) && st.defs && st.ids == ['!', '"'] && b < 2
    ensures ParseLine(st, [Bin(on), if b == 0 then '!' else '"']) == st.(mask := SetBit(st.mask, b, on))
  {
    hide Words, VarLine, Starts, ReadDigits, SetBit, Flush;
    var l := [Bin(on), if b == 0 then '!' else '"'];
    assert SkipBlanks(l, 0) == 0;
    assert BitOfId(st.ids, l[1], 0) == b;
  }

  lemma SetLevel(scl: bool, sda: bool, on: bool)
    ensures SetBit(Mask(scl, sda), 0, on) == Mask(on, sda)
    ensures SetBit(Mask(scl, sda), 1, on) == Mask(scl, on)
    ensures High(Mask(scl, sda), 0) == scl && High(Mask(scl, sda), 1) == sda
  {}

  lemma EdgeParse(st: Parse, x: Line, scl: bool, sda: bool, t0: nat)
    requires Tracks(st, scl, sda)
    ensures ParseLines(st, EdgeLines(x, scl, sda, t0))
         == Flush(st).(curT := Rel(x.t, t0), mask := Mask(x.scl, x.sda))
    ensures Tracks(ParseLines(st, EdgeLines(x, scl, sda, t0)), x.scl, x.sda)
  {
    hide ParseLine, ParseLines, SetBit, Mask, Rel, Dec;
    var h, c, d := [['#'] + Dec(Rel(x.t, t0))], [[Bin(x.scl), '!']], [[Bin(x.sda), '"']];
    var e := if x.scl != scl then c else [];
    var f := if x.sda != sda then d else [];
    HashLine(st, Rel(x.t, t0));
    var s1 := Flush(st).(curT := Rel(x.t, t0), pending := true);
    ParseOne(st, h[0]);
    ParseNone(s1);
    ValueLine(s1, 0, x.scl);
    ParseOne(s1, c[0]);
    SetLevel(scl, sda, x.scl);
    var s2 := s1.(mask := Mask(x.scl, sda));
    ValueLine(s2, 1, x.sda);
    ParseOne(s2, d[0]);
    ParseNone(s2);
    SetLevel(x.scl, sda, x.sda);
    ParseCat(st, h, e);
    ParseCat(st, h + e, f);
  }

  lemma ParseNone(st: Parse)
    requires Fits(st)
    ensures ParseLines(st, []) == st
  {}

  // The samples a list of moves is reloaded as.
  function Reloaded(xs: seq<Line>, t0: nat): (r: seq<Sample>)
    ensures |r| == |xs|
  {
    if xs == [] then [] else [Sample(Rel(xs[0].t, t0), Mask(xs[0].scl, xs[0].sda))] + Reloaded(xs[1..], t0)
  }

  lemma {:induction false} BodyParse(st: Parse, xs: seq<Line>, scl: bool, sda: bool, t0: nat)
    requires Tracks(st, scl, sda) && |st.samples| + 1 + |Moves(scl, sda, xs)| <= MAX_SAMP
    ensures var r := Flush(ParseLines(st, Body(xs, scl, sda, t0)));
      && r.samples == st.samples + [Sample(st.curT, st.mask)] + Reloaded(Moves(scl, sda, xs), t0)
      && r.sclBit == 0 && r.sdaBit == 1
    decreases |xs|
  {
    hide ParseLine, ParseLines, EdgeLines, Mask, Rel;
    if xs == [] {
      ParseNone(st);
    } else if xs[0].scl == scl && xs[0].sda == sda {
      BodyParse(st, xs[1..], scl, sda, t0);
    } else {
      var x := xs[0];
      EdgeParse(st, x, scl, sda, t0);
      var st' := Flush(st).(curT := Rel(x.t, t0), mask := Mask(x.scl, x.sda));
      MovesStep(scl, sda, xs);
      ParseCat(st, EdgeLines(x, scl, sda, t0), Body(xs[1..], x.scl, x.sda, t0));
      BodyParse(st', xs[1..], x.scl, x.sda, t0);
      ReloadedStep(x, Moves(x.scl, x.sda, xs[1..]), t0);
    }
  }

  lemma MovesStep(scl: bool, sda: bool, xs: seq<Line>)
    requires xs != [] && (xs[0].scl != scl || xs[0].sda != sda)
    ensures Moves(scl, sda, xs) == [xs[0]] + Moves(xs[0].scl, xs[0].sda, xs[1..])
  {}

  lemma ReloadedStep(x: Line, xs: seq<Line>, t0: nat)
    ensures Reloaded([x] + xs, t0) == [Sample(Rel(x.t, t0), Mask(x.scl, x.sda))] + Reloaded(xs, t0)
  {
    assert ([x] + xs)[1..] == xs;
  }

  lemma IdleParse()
    ensures var r := ParseLines(AFTER_HEADER, IDLE_LINES);
      Tracks(r, true, true) && r.curT == 0 && r.samples == []
  {
    hide ParseLine, ParseLines, SetBit, Mask;
    assert Dec(0) == "0";
    assert IDLE_LINES[0] == ['#'] + Dec(0);
    HashLine(AFTER_HEADER, 0);
    var s1 := AFTER_HEADER.(pending := true);
    assert IDLE_LINES[1] == [Bin(true), '!'] && IDLE_LINES[2] == [Bin(true), '"'];
    MaskZero();
    ValueLine(s1, 0, true);
    SetLevel(false, false, true);
    var s2 := s1.(mask := Mask(true, false));
    ValueLine(s2, 1, true);
    SetLevel(true, false, true);
    ParseOne(AFTER_HEADER, IDLE_LINES[0]);
    ParseTwo(s1, IDLE_LINES[1], IDLE_LINES[2]);
    ParseCat(AFTER_HEADER, [IDLE_LINES[0]], [IDLE_LINES[1], IDLE_LINES[2]]);
    assert [IDLE_LINES[0]] + [IDLE_LINES[1], IDLE_LINES[2]] == IDLE_LINES;
  }

  lemma MaskZero()
    ensures Mask(false, false) == 0
  {}

  // ----- Every printed line fits the line buffer ------------------------------------------------

  function Pow10(k: nat): nat { if k == 0 then 1 else 10 * Pow10(k - 1) }

  lemma {:induction false} DecLength(n: nat, k: nat)
    requires k > 0 && n < Pow10(k)
    ensures |Dec(n)| <= k
  {
    if n >= 10 { DecLength(n / 10, k - 1); }
  }

  lemma U32Digits()
    ensures U32 <= Pow10(10)
  {
    assert Pow10(2) == 100 && Pow10(4) == 10000 && Pow10(6) == 1000000 && Pow10(8) == 100000000;
  }

  predicate AllClean(ls: seq<string>) { forall k | 0 <= k < |ls| :: CleanLine(ls[k]) }

  lemma CleanCat(a: seq<string>, b: seq<string>)
    requires AllClean(a) && AllClean(b)
    ensures AllClean(a + b)
  {
    hide CleanLine;
  }

  lemma HashClean(n: nat)
    requires n < U32
    ensures CleanLine(['#'] + Dec(n))
  {
    U32Digits();
    DecLength(n, 10);
  }

  lemma EdgeClean(x: Line, scl: bool, sda: bool, t0: nat)
    ensures AllClean(EdgeLines(x, scl, sda, t0))
  {
    hide Rel;
    HashClean(Rel(x.t, t0));
    var h, c, d := [['#'] + Dec(Rel(x.t, t0))], [[Bin(x.scl), '!']], [[Bin(x.sda), '"']];
    CleanCat(h, if x.scl != scl then c else []);
    CleanCat(h + (if x.scl != scl then c else []), if x.sda != sda then d else []);
  }

  lemma {:induction false} BodyClean(xs: seq<Line>, scl: bool, sda: bool, t0: nat)
    ensures AllClean(Body(xs, scl, sda, t0))
    decreases |xs|
  {
    hide AllClean, CleanLine, EdgeLines;
    if xs == [] {
      NoneClean();
    } else if xs[0].scl == scl && xs[0].sda == sda {
      BodyClean(xs[1..], scl, sda, t0);
    } else {
      EdgeClean(xs[0], scl, sda, t0);
      BodyClean(xs[1..], xs[0].scl, xs[0].sda, t0);
      CleanCat(EdgeLines(xs[0], scl, sda, t0), Body(xs[1..], xs[0].scl, xs[0].sda, t0));
    }
  }

  lemma NoneClean()
    ensures AllClean([])
  {}

  lemma HeaderClean()
    ensures AllClean(HEADER + IDLE_LINES)
  {
    assert CleanLine(HEAD_SCALE) && CleanLine(HEAD_SCL) && CleanLine(HEAD_SDA) && CleanLine(HEAD_END);
    assert CleanLine("#0") && CleanLine("1!") && CleanLine("1\"");
  }

  // ----- The file, character by character --------------------------------------------

  // The lines every file begins with.
  lemma FirstLines(edges: seq<Sample>)
    ensures |VcdLines(edges)| >= 7
    ensures VcdLines(edges)[..7] == ["$timescale 1 us $end", "$var wire 1 ! SCL $end", "$var wire 1 \" SDA $end",
                                     "$enddefinitions $end", "#0", "1!", "1\""]
  {
    var body := Body(Views(edges, CH_SCL, CH_SDA), true, true, FirstT(edges));
    assert VcdLines(edges) == HEADER + IDLE_LINES + body && |HEADER + IDLE_LINES| == 7;
  }

  // A time stamp is the time since the first edge, on a clock of 32 bits.
  lemma StampIs(t: nat, t0: nat)
    requires t < 0x1_0000_0000 && t0 < 0x1_0000_0000
    ensures Rel(t, t0) == if t >= t0 then t - t0 else t + 0x1_0000_0000 - t0
  {}

  // So the stamps of a capture of less than 2^32 microseconds begin at 0 and differ as
  // the times do.
  lemma StampsKeepTime(edges: seq<Sample>, i: nat, j: nat)
    requires i < |edges| && j < |edges| && (forall k | 0 <= k < |edges| :: edges[0].t <= edges[k].t)
    requires forall k | 0 <= k < |edges| :: edges[k].t - edges[0].t < 0x1_0000_0000
    ensures Rel(edges[0].t, FirstT(edges)) == 0
    ensures Rel(edges[j].t, FirstT(edges)) - Rel(edges[i].t, FirstT(edges)) == edges[j].t - edges[i].t
  {}

  // ----- A saved capture reloads as its moves ------------------------------------------------------

  const MAX_EDGES := 768

  lemma {:induction false} MovesShrink(scl: bool, sda: bool, xs: seq<Line>)
    ensures |Moves(scl, sda, xs)| <= |xs|
    decreases |xs|
  {
    if xs != [] { MovesShrink(xs[0].scl, xs[0].sda, xs[1..]); }
  }

  lemma HeadParse(body: seq<string>)
    ensures ParseLines(START_PARSE, HEADER + IDLE_LINES + body)
         == ParseLines(ParseLines(AFTER_HEADER, IDLE_LINES), body)
  {
    hide ParseLines, ParseLine;
    HeaderParse();
    ParseCat(START_PARSE, HEADER, IDLE_LINES);
    ParseCat(START_PARSE, HEADER + IDLE_LINES, body);
  }

  // The reloaded samples: the idle bus at time 0, then exactly the samples that
  // moved a line, at their time since the first edge.
  lemma SavedReloads(edges: seq<Sample>)
    requires |edges| <= MAX_EDGES
    ensures var r := ParseVcd(Join(VcdLines(edges)));
      && r.samples == [Sample(0, Mask(true, true))]
                      + Reloaded(Moves(true, true, Views(edges, CH_SCL, CH_SDA)), FirstT(edges))
      && r.sclBit == CH_SCL && r.sdaBit == CH_SDA
  {
    hide ParseLines, ParseFrom, Body, Mask, AllClean, Views, Moves, Reloaded, Join, Flush, VcdLines, FirstT;
    var xs, t0 := Views(edges, CH_SCL, CH_SDA), FirstT(edges);
    var body := Body(xs, true, true, t0);
    VcdText(edges);
    HeadParse(body);
    MovesShrink(true, true, xs);
    SamplesParse(xs, t0);
  }

  lemma VcdText(edges: seq<Sample>)
    ensures var body := Body(Views(edges, CH_SCL, CH_SDA), true, true, FirstT(edges));
      ParseFrom(START_PARSE, Join(VcdLines(edges)), 0) == ParseLines(START_PARSE, HEADER + IDLE_LINES + body)
  {
    hide ParseLines, ParseFrom, Body, AllClean, Views, Join, FirstT;
    var xs, t0 := Views(edges, CH_SCL, CH_SDA), FirstT(edges);
    HeaderClean();
    BodyClean(xs, true, true, t0);
    CleanCat(HEADER + IDLE_LINES, Body(xs, true, true, t0));
    ParseText(START_PARSE, VcdLines(edges));
  }

  lemma SamplesParse(xs: seq<Line>, t0: nat)
    requires |Moves(true, true, xs)| <= MAX_EDGES
    ensures var r := Flush(ParseLines(ParseLines(AFTER_HEADER, IDLE_LINES), Body(xs, true, true, t0)));
      && r.samples == [Sample(0, Mask(true, true))] + Reloaded(Moves(true, true, xs), t0)
      && r.sclBit == CH_SCL && r.sdaBit == CH_SDA
  {
    hide ParseLines, Body, Mask, Tracks, Moves, Reloaded, Flush;
    IdleParse();
    var st := ParseLines(AFTER_HEADER, IDLE_LINES);
    TracksMask(st);
    BodyParse(st, xs, true, true, t0);
    assert [] + [Sample(0, Mask(true, true))] == [Sample(0, Mask(true, true))];
  }

  lemma TracksMask(st: Parse)
    requires Tracks(st, true, true)
    ensures st.mask == Mask(true, true)
  {}

  lemma ParseText(st: Parse, lines: seq<string>)
    requires Fits(st) && AllClean(lines)
    ensures ParseFrom(st, Join(lines), 0) == ParseLines(st, lines)
  {
    hide At, Join, ParseFrom, ParseLines, CleanLine;
    var s := Join(lines);
    assert [] + s + [] == s;
    AtHere([], s, []);
    ParseJoined(st, s, 0, lines);
  }

  lemma {:induction false} ReloadedViews(xs: seq<Line>, t0: nat)
    ensures Views(Reloaded(xs, t0), CH_SCL, CH_SDA) == Retime(t => Rel(t, t0), xs)
    decreases |xs|
  {
    hide Mask, High;
    if xs != [] {
      var r := Sample(Rel(xs[0].t, t0), Mask(xs[0].scl, xs[0].sda));
      SetLevel(xs[0].scl, xs[0].sda, true);
      assert ([r] + Reloaded(xs[1..], t0))[1..] == Reloaded(xs[1..], t0);
      ReloadedViews(xs[1..], t0);
    }
  }

  // What a capture decodes to, with times counted from its first edge.
  function CaptureTokens(edges: seq<Sample>): seq<Token> {
    SinceFirst(edges, Take(Tokens(IDLE, Views(edges, CH_SCL, CH_SDA)), MAX_TOK))
  }

  // Tokens with their times counted from the first edge.
  function SinceFirst(edges: seq<Sample>, ks: seq<Token>): seq<Token> {
    RetimeTokens(t => Rel(t, FirstT(edges)), ks)
  }

  // Decoding the reloaded file gives the tokens of the capture, re-timed to the
  // first edge, cut at the viewer's token room.
  lemma ReloadedDecodes(edges: seq<Sample>)
    requires |edges| <= MAX_EDGES
    ensures var r := ParseVcd(Join(VcdLines(edges)));
      Take(Tokens(IDLE, Views(r.samples, CH_SCL, CH_SDA)), MAX_TOK)
      == CaptureTokens(edges)
  {
    hide ParseVcd, Join, VcdLines, Mask, Rel, Tokens;
    var xs, t0 := Views(edges, CH_SCL, CH_SDA), FirstT(edges);
    var f: nat -> nat := t => Rel(t, t0);
    var ms := Moves(true, true, xs);
    SavedReloads(edges);
    ReloadedViews(ms, t0);
    IdleView(Reloaded(ms, t0));
    var vs := Retime(f, ms);
    IdleIsSilent(vs);
    RetimeCommutes(f, IDLE, ms);
    StutterFree(IDLE, xs);
    RetimeTake(f, Tokens(IDLE, xs), MAX_TOK);
  }

  lemma IdleView(ss: seq<Sample>)
    ensures Views([Sample(0, Mask(true, true))] + ss, CH_SCL, CH_SDA)
         == [Line(0, true, true)] + Views(ss, CH_SCL, CH_SDA)
  {
    hide Mask, High;
    SetLevel(true, true, true);
    assert ([Sample(0, Mask(true, true))] + ss)[1..] == ss;
  }

  // The idle sample in front moves nothing.
  lemma IdleIsSilent(xs: seq<Line>)
    ensures Tokens(IDLE, [Line(0, true, true)] + xs) == Tokens(IDLE, xs)
  {
    InsertStutter(IDLE, [], Line(0, true, true), xs);
    assert [] + [Line(0, true, true)] + xs == [Line(0, true, true)] + xs && [] + xs == xs;
  }
}
