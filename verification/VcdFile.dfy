// The two programs around a VCD file, with their state: the sniffer that writes
// it (apps/user/i2cscope/sniff.c) and the viewer that reads it through a small
// chunk buffer (apps/user/waves/waves.c).

module VcdFile {
  import opened Chars
  import opened Text
  import opened Decimal
  import opened I2c
  import opened I2cDecode
  import opened Vcd

  // ----- Writing ---------------------------------------------------------------------

  lemma BodyAt(xs: seq<Line>, i: nat, scl: bool, sda: bool, t0: nat)
    requires i < |xs|
    ensures var x := xs[i];
      Body(xs[i..], scl, sda, t0)
      == if x.scl == scl && x.sda == sda then Body(xs[i + 1..], scl, sda, t0)
         else EdgeLines(x, scl, sda, t0) + Body(xs[i + 1..], x.scl, x.sda, t0)
  {
    assert xs[i..][1..] == xs[i + 1..];
  }

  class Sniffer {
    var file: string

    constructor ()
      ensures file == ""
    {
      file := "";
    }

    method Write(s: string)
      modifies this
      ensures file == old(file) + s
    {
      file := file + s;
    }

    // The lines of one sample that moved.
    method WriteEdge(x: Line, scl: bool, sda: bool, t0: nat)
      modifies this
      ensures file == old(file) + Join(EdgeLines(x, scl, sda, t0))
    {
      hide Dec, Rel;
      ghost var h, c, d := [['#'] + Dec(Rel(x.t, t0))], [[Bin(x.scl), '!']], [[Bin(x.sda), '"']];
      ghost var e := if x.scl != scl then c else [];
      ghost var f := if x.sda != sda then d else [];
      JoinOne(h[0]); JoinOne(c[0]); JoinOne(d[0]);
      JoinCat(h, e); JoinCat(h + e, f);
      Write(['#'] + Dec(Rel(x.t, t0)) + "\n");
      if x.scl != scl { Write([Bin(x.scl), '!'] + "\n"); }
      if x.sda != sda { Write([Bin(x.sda), '"'] + "\n"); }
    }

    // save_vcd on the first `n` captured samples.
    method SaveVcd(edges: array<Sample>, n: nat)
      requires n <= edges.Length
      modifies this
      ensures file == Join(VcdLines(edges[..n]))
    {
      hide Join, Body, EdgeLines, Views, High;
      ghost var xs := Views(edges[..n], CH_SCL, CH_SDA);
      file := Join(HEADER + IDLE_LINES);
      var scl, sda := true, true;
      var t0 := if n > 0 then edges[0].t else 0;
      var i := 0;
      JoinCat(HEADER + IDLE_LINES, Body(xs, true, true, t0));
      assert xs[0..] == xs;
      while i < n
        invariant i <= n
        invariant Join(VcdLines(edges[..n])) == file + Join(Body(xs[i..], scl, sda, t0))
      {
        ViewAt(edges[..n], CH_SCL, CH_SDA, i);
        var x := View(edges[i], CH_SCL, CH_SDA);
        BodyAt(xs, i, scl, sda, t0);
        if x.scl != scl || x.sda != sda {
          JoinCat(EdgeLines(x, scl, sda, t0), Body(xs[i + 1..], x.scl, x.sda, t0));
          WriteEdge(x, scl, sda, t0);
          scl, sda := x.scl, x.sda;
        }
        i := i + 1;
      }
      BodyEnd(xs[i..], scl, sda, t0);
    }
  }

  lemma BodyEnd(xs: seq<Line>, scl: bool, sda: bool, t0: nat)
    requires xs == []
    ensures Join(Body(xs, scl, sda, t0)) == ""
  {}

  // ----- Reading through a chunk buffer ----------------------------------------------------

  const CHUNK := 256

  class Reader {
    const data: string
    var fpos: nat
    var chunk: string
    var cpos: nat

    ghost predicate Valid()
      reads this
    {
      fpos <= |data| && |chunk| <= fpos && cpos <= |chunk| && chunk == data[fpos - |chunk|..fpos]
    }

    // How far the program has read.
    ghost function At(): (p: nat)
      requires Valid()
      reads this
      ensures p <= |data|
    {
      fpos - (|chunk| - cpos)
    }

    constructor (data: string)
      ensures this.data == data && Valid() && At() == 0
    {
      this.data, fpos, chunk, cpos := data, 0, "", 0;
    }

    // read(2): any positive number of the bytes left, or none at the end.
    method Refill()
      requires Valid()
      modifies this
      ensures Valid() && cpos == 0 && fpos - |chunk| == old(fpos)
      ensures chunk == "" <==> old(fpos) == |data|
    {
      var left := |data| - fpos;
      var got: nat := 0;
      if left > 0 { got :| 1 <= got <= left && got <= CHUNK; }
      chunk, fpos, cpos := data[fpos..fpos + got], fpos + got, 0;
    }

    // next_char: the next byte, or -1 at the end.
    method NextChar() returns (c: char, end: bool)
      requires Valid()
      modifies this
      ensures Valid()
      ensures end <==> old(At()) == |data|
      ensures if end then At() == old(At()) else c == data[old(At())] && At() == old(At()) + 1
    {
      c, end := '\n', false;
      if cpos >= |chunk| {
        Refill();
        if chunk == "" { return c, true; }
      }
      c := chunk[cpos];
      cpos := cpos + 1;
    }

    // read_line; `more` is false where the program returns -1.
    method NextLine() returns (line: string, more: bool)
      requires Valid()
      modifies this
      ensures Valid()
      ensures match ReadLine(data, old(At()))
        case EndOfFile => !more
        case Got(l, q) => more && line == l && At() == q
    {
      hide Valid, At, Kept, LineEnd, ReadLine;
      ghost var p := At();
      ghost var e := LineEnd(data, p);
      LineEndStep(data, p);
      line := "";
      var c, end := NextChar();
      ghost var k := p;
      while !end && c != '\n'
        invariant Valid() && p <= k <= e
        invariant LineEnd(data, k) == e
        invariant end <==> k == |data|
        invariant if end then At() == k else k < |data| && c == data[k] && At() == k + 1
        invariant |line| <= LINE_MAX - 1
        invariant Kept(data, p, e, LINE_MAX - 1) == line + Kept(data, k, e, LINE_MAX - 1 - |line|)
        decreases |data| - k
      {
        LineEndStep(data, k);
        KeptStep(data, k, e, LINE_MAX - 1 - |line|);
        if c != '\r' && |line| < LINE_MAX - 1 { line := line + [c]; }
        c, end := NextChar();
        k := k + 1;
      }
      LineEndStep(data, k);
      assert k == e;
      ReadLineIs(data, p);
      more := |line| > 0 || !end;
    }
  }

  lemma ReadLineIs(s: string, p: nat)
    requires p <= |s|
    ensures var e := LineEnd(s, p);
      && (e < |s| ==> ReadLine(s, p) == Got(Kept(s, p, e, LINE_MAX - 1), e + 1))
      && (e == |s| ==> ReadLine(s, p) == if Kept(s, p, e, LINE_MAX - 1) == "" then EndOfFile
                                         else Got(Kept(s, p, e, LINE_MAX - 1), e))
    ensures forall room: nat {:trigger Kept(s, LineEnd(s, p), LineEnd(s, p), room)} ::
              Kept(s, LineEnd(s, p), LineEnd(s, p), room) == ""
  {}

  lemma KeptStep(s: string, p: nat, e: nat, room: nat)
    requires p < e <= |s|
    ensures Kept(s, p, e, room)
         == if s[p] == '\r' || room == 0 then Kept(s, p + 1, e, room) else [s[p]] + Kept(s, p + 1, e, room - 1)
  {}

  // ----- The viewer ----------------------------------------------------------------------

  lemma ModStep(g: nat, d: nat)
    ensures ((g % U32) * 10 + d) % U32 == (g * 10 + d) % U32
  {
    var q := g / U32;
    assert g == q * U32 + g % U32;
    assert g * 10 + d == (q * 10) * U32 + ((g % U32) * 10 + d);
  }

  // The 32-bit digit loop.
  method ReadTime(line: string, p: nat) returns (v: nat)
    requires p <= |line|
    ensures v == ReadDigits(line, p, 0).0 % U32
  {
    v := 0;
    ghost var g: nat := 0;
    var q := p;
    while q < |line| && IsDigit(line[q])
      invariant p <= q <= |line| && v == g % U32
      invariant ReadDigits(line, q, g) == ReadDigits(line, p, 0)
    {
      ModStep(g, DigitVal(line[q]));
      v := (v * 10 + DigitVal(line[q])) % U32;
      g := g * 10 + DigitVal(line[q]);
      q := q + 1;
    }
  }

  // Cutting a definition line into at most six words.
  method SplitWords(line: string, p: nat) returns (ws: seq<string>)
    requires p <= |line|
    ensures ws == Words(line, p, 6)
  {
    hide Words;
    ws := [];
    var q := p;
    while |ws| < 6
      invariant p <= q <= |line| && |ws| <= 6
      invariant ws + Words(line, q, 6 - |ws|) == Words(line, p, 6)
      decreases 6 - |ws|
    {
      WordsFrom(line, q, 6 - |ws|);
      q := SkipSpaces(line, q);
      if q == |line| { return; }
      var e := WordEnd(line, q);
      ghost var rest := Words(line, e, 5 - |ws|);
      assert ws + ([line[q..e]] + rest) == ws + [line[q..e]] + rest;
      ws, q := ws + [line[q..e]], e;
    }
    WordsFrom(line, q, 0);
  }

  lemma WordsFrom(s: string, p: nat, k: nat)
    requires p <= |s|
    ensures var q := SkipSpaces(s, p);
      Words(s, p, k) == if k == 0 || q == |s| then [] else [s[q..WordEnd(s, q)]] + Words(s, WordEnd(s, q), k - 1)
  {}

  class Viewer {
    var defs: bool
    var pending: bool
    var curT: nat
    var mask: bv32
    var samples: seq<Sample>
    var ids: seq<char>
    var sclBit: int
    var sdaBit: int

    constructor ()
      ensures State() == START_PARSE
    {
      defs, pending, curT, mask, samples, ids, sclBit, sdaBit := false, false, 0, 0, [], [], -1, -1;
    }

    function State(): Parse
      reads this
    {
      Parse(defs, pending, curT, mask, samples, ids, sclBit, sdaBit)
    }

    method FlushSample()
      modifies this
      ensures State() == Flush(old(State()))
    {
      if pending && |samples| < MAX_SAMP {
        samples := samples + [Sample(curT, mask)];
      }
    }

    method DefineVar(line: string, p: nat)
      requires p <= |line| && Fits(State())
      modifies this
      ensures State() == VarLine(old(State()), line, p)
    {
      var ws := SplitWords(line, p);
      if |ws| >= 5 && |ids| < MAX_CH {
        if ws[4] == "SCL" { sclBit := |ids|; }
        if ws[4] == "SDA" { sdaBit := |ids|; }
        ids := ids + [ws[3][0]];
      }
    }

    method HandleLine(line: string)
      requires Fits(State())
      modifies this
      ensures State() == ParseLine(old(State()), line)
    {
      hide VarLine;
      var p := SkipBlanks(line, 0);
      if p == |line| { return; }
      if !defs {
        if Starts(line, p, "$var") {
          DefineVar(line, p);
        } else if Starts(line, p, "$enddefinitions") {
          defs := true;
        }
        return;
      }
      if line[p] == '#' {
        FlushSample();
        curT := ReadTime(line, p + 1);
        pending := true;
      } else if (line[p] == '0' || line[p] == '1') && p + 1 < |line| {
        var b := BitOfId(ids, line[p + 1], 0);
        if b >= 0 { mask := SetBit(mask, b, line[p] == '1'); }
      }
    }

    // parse_vcd: the samples of the file, and the tokens of its I2C channels.
    method Load(r: Reader, out: array<Token>) returns (nt: nat)
      requires r.Valid() && r.At() == 0 && State() == START_PARSE && out.Length >= MAX_TOK
      modifies this, r, out
      ensures State() == ParseVcd(r.data)
      ensures nt <= MAX_TOK
      ensures out[..nt] == if sclBit >= 0 && sdaBit >= 0
                           then Take(Tokens(IDLE, Views(samples, sclBit, sdaBit)), MAX_TOK) else []
    {
      hide ParseLine, ReadLine, Flush, Tokens, Views, Take;
      while true
        invariant r.Valid() && Fits(State())
        invariant ParseFrom(State(), r.data, r.At()) == ParseFrom(START_PARSE, r.data, 0)
        decreases |r.data| - r.At()
      {
        var line, more := r.NextLine();
        if !more { break; }
        HandleLine(line);
      }
      FlushFits(State());
      FlushSample();
      nt := 0;
      if sclBit >= 0 && sdaBit >= 0 {
        var s := new Sample[|samples|](i requires 0 <= i < |samples| reads this => samples[i]);
        assert s[..|samples|] == samples;
        nt := I2cDecode.I2cDecode(s, |samples|, sclBit, sdaBit, out, MAX_TOK);
      }
    }
  }

  lemma FlushFits(st: Parse)
    requires Fits(st)
    ensures Fits(Flush(st)) && Flush(st).sclBit == st.sclBit && Flush(st).sdaBit == st.sdaBit
  {}

  // The sniffer's own table of tokens.
  const OWN_TOK := 384

  // Decode a capture, save it, reload the file through the chunked reader at whatever
  // sizes read(2) returns, and decode that: the viewer's tokens are the first ones of
  // the sniffer's table, as many as it has room for, with times counted from the first
  // edge.
  method SaveAndReload(edges: array<Sample>, n: nat, own: array<Token>, out: array<Token>) returns (no: nat, nt: nat)
    requires n <= edges.Length && n <= 768 && own != out && own.Length >= 384 && out.Length >= 256
    modifies own, out
    ensures no <= 384 && own[..no] == Take(Tokens(IDLE, Views(edges[..n], CH_SCL, CH_SDA)), 384)
    ensures nt == if no <= 256 then no else 256
    ensures out[..nt] == CaptureTokens(edges[..n])
    ensures out[..nt] == SinceFirst(edges[..n], own[..nt])
  {
    hide Join, VcdLines, ParseVcd, Tokens, Views, Take, CaptureTokens, Moves, Reloaded, Mask, SinceFirst;
    ghost var es := edges[..n];
    no := I2cDecode.I2cDecode(edges, n, CH_SCL, CH_SDA, own, OWN_TOK);
    ghost var table := own[..no];
    var w := new Sniffer();
    w.SaveVcd(edges, n);
    var r := new Reader(w.file);
    var v := new Viewer();
    nt := v.Load(r, out);
    SavedReloads(es);
    ReloadedDecodes(es);
    FirstTokens(es, table);
    assert own[..nt] == table[..nt];
  }

  lemma FirstTokens(es: seq<Sample>, table: seq<Token>)
    requires table == Take(Tokens(IDLE, Views(es, CH_SCL, CH_SDA)), OWN_TOK)
    ensures var nt := if |table| <= MAX_TOK then |table| else MAX_TOK;
      |CaptureTokens(es)| == nt && CaptureTokens(es) == SinceFirst(es, table[..nt])
  {
    hide Tokens, Views, Rel, FirstT, RetimeTokens;
    var nt := if |table| <= MAX_TOK then |table| else MAX_TOK;
    assert Take(Tokens(IDLE, Views(es, CH_SCL, CH_SDA)), MAX_TOK) == table[..nt];
  }
}
