// The known-networks store: its parser (sdk/net/known_yaml.c) and its printer
// (save_known in apps/user/wifi/wifi.c). The two are inverse exactly on the
// networks whose values survive trimming and unquoting.

module KnownYaml {
  import opened Chars
  import opened Text

  const SSID_CAP := 33
  const PSK_CAP := 65
  const MAX_NETS := 16
  const BUF_SIZE := 2048

  datatype Net = Net(ssid: string, psk: string)

  // ----- Values -----------------------------------------------------------------------

  function TrimEnd(s: string, a: nat, e: nat): (r: nat)
    requires a <= e <= |s|
    ensures a <= r <= e && (a < r ==> !IsSpace(s[r - 1]))
  {
    if a < e && IsSpace(s[e - 1]) then TrimEnd(s, a, e - 1) else e
  }

  predicate Quoted(v: string) { |v| >= 2 && v[0] == '"' && v[|v| - 1] == '"' }
  function Unquote(v: string): string { if Quoted(v) then v[1..|v| - 1] else v }
  function Cut(v: string, room: nat): string { if |v| > room then v[..room] else v }

  function Trim(s: string): string {
    var a := SkipSpace(s, 0);
    s[a..TrimEnd(s, a, |s|)]
  }

  // What known_yaml_copy_value leaves in a field of `cap` characters.
  function Value(s: string, cap: nat): string
    requires cap > 0
  {
    Cut(Unquote(Trim(s)), cap - 1)
  }

  // No whitespace at either end.
  predicate Bare(v: string) { v != "" ==> !IsSpace(v[0]) && !IsSpace(v[|v| - 1]) }
  predicate Blank(s: string) { forall k | 0 <= k < |s| :: IsSpace(s[k]) }

  lemma {:induction false} SkipBlank(s: string, p: nat, n: nat)
    requires p + n <= |s| && forall k | p <= k < p + n :: IsSpace(s[k])
    ensures SkipSpace(s, p) == SkipSpace(s, p + n)
    decreases n
  {
    if n > 0 { SkipBlank(s, p + 1, n - 1); }
  }

  lemma {:induction false} TrimBlank(s: string, a: nat, e: nat, n: nat)
    requires a + n <= e <= |s| && forall k | e - n <= k < e :: IsSpace(s[k])
    ensures TrimEnd(s, a, e) == TrimEnd(s, a, e - n)
    decreases n
  {
    if n > 0 { TrimBlank(s, a, e - 1, n - 1); }
  }

  // Trimming removes the whitespace around the value and nothing else: every
  // text is blanks, a bare value, blanks.
  lemma TrimIs(pre: string, v: string, post: string)
    requires Blank(pre) && Blank(post) && Bare(v) && (v == "" ==> post == "")
    ensures Trim(pre + v + post) == v
  {
    hide SkipSpace, TrimEnd, Bare, Blank;
    var s := pre + v + post;
    SkipPre(s, pre, v, post);
    if v != "" { BareEnd(v); }
    TrimPost(pre + v, post, |pre|);
    assert s[|pre|..|pre| + |v|] == v;
  }

  lemma BareEnd(v: string)
    requires Bare(v) && v != ""
    ensures !IsSpace(v[|v| - 1])
  {}

  lemma SkipPre(s: string, pre: string, v: string, post: string)
    requires s == pre + v + post && Blank(pre) && Bare(v) && (v == "" ==> post == "")
    ensures SkipSpace(s, 0) == |pre|
  {
    SkipBlank(s, 0, |pre|);
    if v != "" { assert s[|pre|] == v[0]; }
  }

  lemma TrimPost(head: string, post: string, a: nat)
    requires a <= |head| && Blank(post) && (a < |head| ==> !IsSpace(head[|head| - 1]))
    ensures TrimEnd(head + post, a, |head + post|) == |head|
  {
    var s := head + post;
    forall k | |head| <= k < |s| ensures IsSpace(s[k]) { assert s[k] == post[k - |head|]; }
    TrimBlank(s, a, |s|, |post|);
  }

  // A value that copy_value hands back unchanged.
  predicate Plain(v: string) { Bare(v) && !Quoted(v) }

  // Printed after a space and read back, a value is itself if and only if it is
  // plain and fits the field.
  lemma ValueSurvives(v: string, cap: nat)
    requires cap > 0
    ensures Value(" " + v, cap) == v <==> |v| < cap && Plain(v)
  {
    var s := " " + v;
    if Bare(v) {
      TrimIs(" ", v, "");
      assert " " + v + "" == s;
    } else {
      SkipBlank(s, 0, 1);
      assert |Trim(s)| < |v| by {
        var a := SkipSpace(s, 0);
        assert s[1] == v[0] && s[|s| - 1] == v[|v| - 1];
      }
    }
  }

  // ----- Lines --------------------------------------------------------------------------

  // The networks so far, and whether the last of them still waits for its psk.
  datatype Store = Store(nets: seq<Net>, open_: bool)

  const START := Store([], false)

  predicate Ok(st: Store) { st.open_ ==> st.nets != [] }

  const SSID_KEY := "- ssid:"
  const PSK_KEY := "psk:"

  predicate Starts(l: string, p: nat, key: string) { p + |key| <= |l| && l[p..p + |key|] == key }

  // An entry line: an empty ssid, or a full table, opens nothing.
  function OpenEntry(st: Store, v: string, max: nat): (r: Store)
    ensures Ok(r)
  {
    if |st.nets| < max && v != "" then Store(st.nets + [Net(v, "")], true) else Store(st.nets, false)
  }

  // A psk line completes the last entry.
  function CloseEntry(st: Store, v: string): (r: Store)
    requires st.open_ && Ok(st)
    ensures Ok(r)
  {
    var i := |st.nets| - 1;
    Store(st.nets[i := Net(st.nets[i].ssid, v)], false)
  }

  function ParseLine(st: Store, l: string, max: nat): (r: Store)
    requires Ok(st)
    ensures Ok(r)
  {
    var p := SkipSpace(l, 0);
    if p == |l| || l[p] == '#' then st
    else if Starts(l, p, SSID_KEY) then OpenEntry(st, Value(l[p + 7..], SSID_CAP), max)
    else if st.open_ && Starts(l, p, PSK_KEY) then CloseEntry(st, Value(l[p + 4..], PSK_CAP))
    else st
  }

  function ParseFrom(st: Store, s: string, p: nat, max: nat): (r: Store)
    requires Ok(st) && p <= |s|
    ensures Ok(r)
    decreases |s| - p
  {
    if p == |s| then st
    else
      var e := LineEnd(s, p);
      var next := ParseLine(st, s[p..e], max);
      if e == |s| then next else ParseFrom(next, s, e + 1, max)
  }

  // known_yaml_parse.
  function Parse(s: string, max: nat): seq<Net> { ParseFrom(START, s, 0, max).nets }

  function ParseLines(st: Store, lines: seq<string>, max: nat): (r: Store)
    requires Ok(st)
    ensures Ok(r)
    decreases |lines|
  {
    if lines == [] then st else ParseLines(ParseLine(st, lines[0], max), lines[1..], max)
  }

  // No line has a newline inside it.
  ghost predicate LinesWhole(lines: seq<string>) { forall k | 0 <= k < |lines| :: Without(lines[k], '\n') }

  // Parsing a text line by line is parsing the list of its lines.
  lemma {:induction false} ParseJoined(st: Store, s: string, p: nat, lines: seq<string>, max: nat)
    requires Ok(st) && At(s, p, Join(lines)) && p + |Join(lines)| == |s|
    requires LinesWhole(lines)
    ensures ParseFrom(st, s, p, max) == ParseLines(st, lines, max)
    decreases |lines|
  {
    hide ParseLine, At, LineEnd, Without;
    if lines != [] {
      var l, tail := lines[0], Join(lines[1..]);
      AtSplit(s, p, l, "\n" + tail);
      AtSplit(s, p + |l|, "\n", tail);
      AtOne(s, p + |l|, '\n');
      AtFits(s, p, l);
      EndOfLine(s, p, l);
      ParseJoined(ParseLine(st, l, max), s, p + |l| + 1, lines[1..], max);
    }
  }

  // ----- Printing ----------------------------------------------------------------------------

  function Shown(psk: string): string { if psk == "" then "\"\"" else psk }
  function SsidLine(n: Net): string { "  - ssid: " + n.ssid }
  function PskLine(n: Net): string { "    psk: " + Shown(n.psk) }

  function NetLines(nets: seq<Net>): seq<string>
    decreases |nets|
  {
    if nets == [] then [] else [SsidLine(nets[0]), PskLine(nets[0])] + NetLines(nets[1..])
  }

  // save_known.
  function Saved(nets: seq<Net>): string { Join(["networks:"] + NetLines(nets)) }

  // ----- One network ---------------------------------------------------------------------------

  lemma FirstChar(l: string, p: nat, key: string)
    requires p < |l| && key != ""
    ensures Starts(l, p, key) ==> l[p] == key[0]
  {
    if Starts(l, p, key) { assert l[p..p + |key|][0] == l[p]; }
  }

  lemma SsidParse(st: Store, n: Net, max: nat)
    requires Ok(st)
    ensures ParseLine(st, SsidLine(n), max) == OpenEntry(st, Value(" " + n.ssid, SSID_CAP), max)
  {
    hide Value, ParseLine;
    assert SsidLine(n) == "  " + ("- ssid:" + (" " + n.ssid));
    EntryLine(st, "  ", " " + n.ssid, max);
  }

  lemma PskParse(st: Store, n: Net, max: nat)
    requires Ok(st)
    ensures ParseLine(st, PskLine(n), max) ==
            if st.open_ then CloseEntry(st, Value(" " + Shown(n.psk), PSK_CAP)) else st
  {
    hide Value, ParseLine, Shown;
    assert PskLine(n) == "    " + ("psk:" + (" " + Shown(n.psk)));
    EntryLine(st, "    ", " " + Shown(n.psk), max);
    if st.open_ {
      var i, v := |st.nets| - 1, Value(" " + Shown(n.psk), PSK_CAP);
      assert st.nets[i := Net(st.nets[i].ssid, v)] == st.nets[..i] + [Net(st.nets[i].ssid, v)];
    }
  }

  // A network that a print and a parse leave as it is.
  predicate Survives(n: Net) {
    && n.ssid != "" && |n.ssid| < SSID_CAP && Plain(n.ssid)
    && |n.psk| < PSK_CAP && Plain(n.psk)
  }

  // What its two lines read back as.
  function Reread(n: Net): Net { Net(Value(" " + n.ssid, SSID_CAP), Value(" " + Shown(n.psk), PSK_CAP)) }

  lemma RereadIs(n: Net)
    ensures n.ssid != "" && Reread(n) == n <==> Survives(n)
  {
    hide Value, Plain;
    ValueSurvives(n.ssid, SSID_CAP);
    if n.psk == "" {
      EmptyShown();
    } else {
      ValueSurvives(n.psk, PSK_CAP);
    }
  }

  lemma EmptyShown()
    ensures Value(" " + Shown(""), PSK_CAP) == "" && Plain("")
  {
    var v := "\"\"";
    TrimIs(" ", v, "");
    assert " " + Shown("") == " " + v + "";
    assert Unquote(v) == "";
  }

  // ----- The whole file ------------------------------------------------------------------------

  ghost predicate AllSurvive(nets: seq<Net>) { forall k | 0 <= k < |nets| :: Survives(nets[k]) }

  // The two lines of one network, read with the earlier networks in `acc`.
  lemma NetParse(acc: seq<Net>, n: Net, max: nat)
    ensures ParseLines(Store(acc, false), [SsidLine(n), PskLine(n)], max) ==
            Store(if |acc| < max && Reread(n).ssid != "" then acc + [Reread(n)] else acc, false)
  {
    hide Value, Shown, SsidLine, PskLine;
    var st := Store(acc, false);
    SsidParse(st, n, max);
    var one := ParseLine(st, SsidLine(n), max);
    PskParse(one, n, max);
    var two := ParseLine(one, PskLine(n), max);
    assert [SsidLine(n), PskLine(n)][1..] == [PskLine(n)];
    assert ParseLines(one, [PskLine(n)], max) == ParseLines(two, [], max) == two;
    if one.open_ {
      assert (acc + [Net(Reread(n).ssid, "")])[|acc| := Reread(n)] == acc + [Reread(n)];
    }
  }

  lemma {:induction false} ParseCat(st: Store, a: seq<string>, b: seq<string>, max: nat)
    requires Ok(st)
    ensures ParseLines(st, a + b, max) == ParseLines(ParseLines(st, a, max), b, max)
    decreases |a|
  {
    hide ParseLine;
    if a == [] {
      assert a + b == b;
    } else {
      assert (a + b)[1..] == a[1..] + b;
      ParseCat(ParseLine(st, a[0], max), a[1..], b, max);
    }
  }

  // Reading the lines of a list of networks after `acc`.
  function ReadNets(acc: seq<Net>, nets: seq<Net>, max: nat): seq<Net>
    decreases |nets|
  {
    if nets == [] then acc
    else
      var r := Reread(nets[0]);
      ReadNets(if |acc| < max && r.ssid != "" then acc + [r] else acc, nets[1..], max)
  }

  lemma {:induction false} NetsParse(acc: seq<Net>, nets: seq<Net>, max: nat)
    ensures ParseLines(Store(acc, false), NetLines(nets), max) == Store(ReadNets(acc, nets, max), false)
    decreases |nets|
  {
    hide ParseLine, Reread, SsidLine, PskLine;
    if nets != [] {
      var st, two := Store(acc, false), [SsidLine(nets[0]), PskLine(nets[0])];
      ParseCat(st, two, NetLines(nets[1..]), max);
      NetParse(acc, nets[0], max);
      NetsParse(ParseLines(st, two, max).nets, nets[1..], max);
    }
  }

  // No network is invented: the earlier ones stay and at most one is added for each.
  lemma {:induction false} ReadNetsGrows(acc: seq<Net>, nets: seq<Net>, max: nat)
    ensures var r := ReadNets(acc, nets, max);
      && acc <= r && |r| <= |acc| + |nets| && (|r| <= max || |r| == |acc|)
    decreases |nets|
  {
    hide Reread;
    if nets != [] {
      var r := Reread(nets[0]);
      ReadNetsGrows(if |acc| < max && r.ssid != "" then acc + [r] else acc, nets[1..], max);
    }
  }

  lemma {:induction false} ReadNetsIs(acc: seq<Net>, nets: seq<Net>, max: nat)
    ensures ReadNets(acc, nets, max) == acc + nets <==>
            nets == [] || (|acc| + |nets| <= max && AllSurvive(nets))
    decreases |nets|
  {
    hide Reread, Survives;
    if nets != [] {
      var n, r := nets[0], Reread(nets[0]);
      RereadIs(n);
      var got := ReadNets(acc, nets, max);
      var acc' := if |acc| < max && r.ssid != "" then acc + [r] else acc;
      ReadNetsGrows(acc', nets[1..], max);
      ReadNetsIs(acc', nets[1..], max);
      AllSurviveStep(nets);
      if got == acc + nets {
        assert acc' == acc + [r];
        assert got[|acc|] == r;
        assert acc + nets == acc' + nets[1..];
      } else if r == n && acc' == acc + [r] {
        assert acc + nets == acc' + nets[1..];
      }
    }
  }

  lemma AllSurviveStep(nets: seq<Net>)
    requires nets != []
    ensures AllSurvive(nets) <==> Survives(nets[0]) && AllSurvive(nets[1..])
  {
    hide Survives;
    if AllSurvive(nets[1..]) && Survives(nets[0]) {
      forall k | 0 <= k < |nets| ensures Survives(nets[k]) {
        if k > 0 { assert nets[k] == nets[1..][k - 1]; }
      }
    }
    if AllSurvive(nets) {
      forall k | 0 <= k < |nets[1..]| ensures Survives(nets[1..][k]) { assert nets[1..][k] == nets[k + 1]; }
    }
  }

  // No text parses to a value with a newline in it, nor with any character that the
  // text does not hold, nor to more or longer values than the table takes.
  predicate Clean(n: Net, c: char) { Without(n.ssid, c) && Without(n.psk, c) }
  ghost predicate AllClean(nets: seq<Net>, c: char) { forall k | 0 <= k < |nets| :: Clean(nets[k], c) }

  lemma WithoutSlice(s: string, a: nat, b: nat, c: char)
    requires a <= b <= |s| && Without(s, c)
    ensures Without(s[a..b], c)
  {
    forall k | 0 <= k < b - a ensures s[a..b][k] != c { assert s[a..b][k] == s[a + k]; }
  }

  lemma ValueClean(s: string, cap: nat, c: char)
    requires cap > 0 && Without(s, c)
    ensures Without(Value(s, cap), c)
  {
    hide Without;
    var a := SkipSpace(s, 0);
    WithoutSlice(s, a, TrimEnd(s, a, |s|), c);
    var t := Trim(s);
    if Quoted(t) { WithoutSlice(t, 1, |t| - 1, c); }
    var u := Unquote(t);
    if |u| > cap - 1 { WithoutSlice(u, 0, cap - 1, c); }
  }

  lemma EntryClean(st: Store, v: string, max: nat, c: char)
    requires Ok(st) && AllClean(st.nets, c) && Without(v, c)
    ensures AllClean(OpenEntry(st, v, max).nets, c)
    ensures st.open_ ==> AllClean(CloseEntry(st, v).nets, c)
  {
    hide Without;
    assert Without("", c) by { WithoutSlice(v, 0, 0, c); }
    if st.open_ { assert Clean(st.nets[|st.nets| - 1], c); }
  }

  lemma LineClean(st: Store, l: string, max: nat, c: char)
    requires Ok(st) && AllClean(st.nets, c) && Without(l, c)
    ensures AllClean(ParseLine(st, l, max).nets, c)
  {
    hide Value, Without, OpenEntry, CloseEntry, AllClean;
    var p := SkipSpace(l, 0);
    if p + 7 <= |l| {
      WithoutSlice(l, p + 7, |l|, c);
      assert l[p + 7..|l|] == l[p + 7..];
      ValueClean(l[p + 7..], SSID_CAP, c);
      EntryClean(st, Value(l[p + 7..], SSID_CAP), max, c);
    }
    if p + 4 <= |l| {
      WithoutSlice(l, p + 4, |l|, c);
      assert l[p + 4..|l|] == l[p + 4..];
      ValueClean(l[p + 4..], PSK_CAP, c);
      EntryClean(st, Value(l[p + 4..], PSK_CAP), max, c);
    }
  }

  lemma {:induction false} ParsedClean(st: Store, s: string, p: nat, max: nat, c: char)
    requires Ok(st) && p <= |s| && AllClean(st.nets, c) && (c == '\n' || Without(s, c))
    ensures AllClean(ParseFrom(st, s, p, max).nets, c)
    decreases |s| - p
  {
    hide ParseLine, AllClean, Without;
    if p < |s| {
      var e := LineEnd(s, p);
      if c == '\n' { WithinLine(s, p); } else { WithoutSlice(s, p, e, c); }
      LineClean(st, s[p..e], max, c);
      if e < |s| { ParsedClean(ParseLine(st, s[p..e], max), s, e + 1, max, c); }
    }
  }

  // The table has room for its entries, and each field for its value.
  predicate Short(n: Net) { |n.ssid| < SSID_CAP && |n.psk| < PSK_CAP }
  ghost predicate AllShort(nets: seq<Net>, max: nat) {
    |nets| <= max && forall k | 0 <= k < |nets| :: Short(nets[k])
  }

  lemma LineShort(st: Store, l: string, max: nat)
    requires Ok(st) && AllShort(st.nets, max)
    ensures AllShort(ParseLine(st, l, max).nets, max)
  {
    hide Starts, Unquote, Trim, Quoted;
    if st.open_ { assert Short(st.nets[|st.nets| - 1]); }
  }

  lemma {:induction false} ParsedShort(st: Store, s: string, p: nat, max: nat)
    requires Ok(st) && p <= |s| && AllShort(st.nets, max)
    ensures AllShort(ParseFrom(st, s, p, max).nets, max)
    decreases |s| - p
  {
    hide ParseLine, AllShort;
    if p < |s| {
      var e := LineEnd(s, p);
      LineShort(st, s[p..e], max);
      if e < |s| { ParsedShort(ParseLine(st, s[p..e], max), s, e + 1, max); }
    }
  }

  lemma {:induction false} WithinLine(s: string, p: nat)
    requires p <= |s|
    ensures Without(s[p..LineEnd(s, p)], '\n')
    decreases |s| - p
  {
    if p < |s| && s[p] != '\n' {
      WithinLine(s, p + 1);
      var e := LineEnd(s, p);
      assert s[p..e] == [s[p]] + s[p + 1..e];
    }
  }

  // The round trip, exactly: what is printed parses back to the same list if and
  // only if it fits and every network survives and none has a newline in a value.
  lemma SavedReloads(nets: seq<Net>, max: nat)
    ensures Parse(Saved(nets), max) == nets <==>
            |nets| <= max && AllSurvive(nets) && AllClean(nets, '\n')
  {
    hide Parse, Saved, AllSurvive, AllClean;
    if AllClean(nets, '\n') {
      OneLineReloads(nets, max);
    } else {
      ParsedAllOneLine(Saved(nets), max);
    }
  }

  lemma ParsedAllOneLine(s: string, max: nat)
    ensures AllClean(Parse(s, max), '\n')
  {
    ParsedClean(START, s, 0, max, '\n');
  }

  lemma OneLineReloads(nets: seq<Net>, max: nat)
    requires AllClean(nets, '\n')
    ensures Parse(Saved(nets), max) == nets <==> |nets| <= max && AllSurvive(nets)
  {
    hide AllSurvive, AllClean, Parse, Saved, ReadNets;
    OneLineParses(nets, max);
    ReadNetsIs([], nets, max);
    assert [] + nets == nets;
    AllSurviveNone();
  }

  lemma OneLineParses(nets: seq<Net>, max: nat)
    requires AllClean(nets, '\n')
    ensures Parse(Saved(nets), max) == ReadNets([], nets, max)
  {
    hide AllClean, ParseLine, NetLines, ReadNets, Without;
    var lines := ["networks:"] + NetLines(nets);
    SavedLines(nets);
    HeadLine(max);
    forall k | 0 <= k < |lines| ensures Without(lines[k], '\n') {
      assert lines[k] == if k == 0 then "networks:" else NetLines(nets)[k - 1];
    }
    AtHere("", Join(lines), "");
    assert "" + Join(lines) + "" == Join(lines);
    ParseJoined(START, Join(lines), 0, lines, max);
    assert lines[1..] == NetLines(nets);
    NetsParse([], nets, max);
  }

  lemma AllSurviveNone()
    ensures AllSurvive([])
  {}

  lemma HeadLine(max: nat)
    ensures ParseLine(START, "networks:", max) == START && Without("networks:", '\n')
  {
    FirstChar("networks:", 0, SSID_KEY);
  }

  lemma WithoutCat(a: string, b: string, c: char)
    requires Without(a, c) && Without(b, c)
    ensures Without(a + b, c)
  {}

  lemma NetLinesWithout(n: Net, c: char)
    requires (c == '\n' || c == '\0') && Without(n.ssid, c) && Without(n.psk, c)
    ensures Without(SsidLine(n), c) && Without(PskLine(n), c)
  {
    WithoutCat("  - ssid: ", n.ssid, c);
    WithoutCat("    psk: ", Shown(n.psk), c);
  }

  lemma {:induction false} SavedLines(nets: seq<Net>)
    requires AllClean(nets, '\n')
    ensures LinesWhole(NetLines(nets))
    decreases |nets|
  {
    hide Without, SsidLine, PskLine;
    if nets != [] {
      var n, more := nets[0], NetLines(nets[1..]);
      assert Clean(n, '\n');
      NetLinesWithout(n, '\n');
      SavedLines(nets[1..]);
      var lines := NetLines(nets);
      assert lines == [SsidLine(n), PskLine(n)] + more;
      forall k | 0 <= k < |lines| ensures Without(lines[k], '\n') {
        if k >= 2 {
          assert lines[k] == more[k - 2] && Without(more[k - 2], '\n');
        } else {
          assert lines[k] == if k == 0 then SsidLine(n) else PskLine(n);
        }
      }
    }
  }

  // ----- The file, character by character ------------------------------------------------

  // Quotes around a value go, one pair of them, with the whitespace outside; what is
  // inside stays, cut to the field.
  lemma QuotesRemoved(pre: string, v: string, post: string, cap: nat)
    requires cap > 0 && Blank(pre) && Blank(post)
    ensures Value(pre + ("\"" + v + "\"") + post, cap) == if |v| < cap then v else v[..cap - 1]
  {
    var q := "\"" + v + "\"";
    assert q[0] == '"' && q[|q| - 1] == '"' && q[1..|q| - 1] == v;
    TrimIs(pre, q, post);
  }

  // A value without them stays whole, cut to the field.
  lemma PlainKept(pre: string, v: string, post: string, cap: nat)
    requires cap > 0 && Blank(pre) && Blank(post) && v != "" && !IsSpace(v[0]) && !IsSpace(v[|v| - 1])
    requires |v| == 1 || v[0] != '"' || v[|v| - 1] != '"'
    ensures Value(pre + v + post, cap) == if |v| < cap then v else v[..cap - 1]
  {
    TrimIs(pre, v, post);
  }

  lemma SkipTo(l: string, pre: string, rest: string)
    requires l == pre + rest && Blank(pre) && rest != "" && !IsSpace(rest[0])
    ensures SkipSpace(l, 0) == |pre| && l[|pre|] == rest[0] && l[|pre|..] == rest
  {
    SkipBlank(l, 0, |pre|);
    assert l[|pre|] == rest[0];
  }

  lemma KeyAt(l: string, p: nat, key: string)
    requires p <= |l|
    ensures Starts(l, p, key) <==> key <= l[p..]
  {
    if p + |key| <= |l| { assert l[p..][..|key|] == l[p..p + |key|]; }
  }

  // Comments, empty lines and lines of any other kind are passed over.
  lemma OtherLine(st: Store, pre: string, rest: string, max: nat)
    requires Ok(st) && Blank(pre) && (rest == "" || !IsSpace(rest[0]))
    requires rest == "" || rest[0] == '#' || (!("- ssid:" <= rest) && !("psk:" <= rest))
    ensures ParseLine(st, pre + rest, max) == st
  {
    var l := pre + rest;
    if rest == "" {
      SkipBlank(l, 0, |pre|);
    } else {
      SkipTo(l, pre, rest);
      KeyAt(l, |pre|, SSID_KEY);
      KeyAt(l, |pre|, PSK_KEY);
    }
  }

  // An entry line opens an entry with its value for a name, if that is not empty and
  // there is room; a psk line completes an entry that is open.
  lemma EntryLine(st: Store, pre: string, v: string, max: nat)
    requires Ok(st) && Blank(pre)
    ensures var name := Value(v, 33);
      ParseLine(st, pre + ("- ssid:" + v), max) ==
        if |st.nets| < max && name != "" then Store(st.nets + [Net(name, "")], true) else Store(st.nets, false)
    ensures ParseLine(st, pre + ("psk:" + v), max) ==
        if st.open_ then
          Store(st.nets[..|st.nets| - 1] + [Net(st.nets[|st.nets| - 1].ssid, Value(v, 65))], false)
        else st
  {
    hide Value, Blank;
    var a, b := "- ssid:" + v, "psk:" + v;
    SkipTo(pre + a, pre, a);
    SkipTo(pre + b, pre, b);
    KeyAt(pre + a, |pre|, SSID_KEY);
    KeyAt(pre + b, |pre|, SSID_KEY);
    KeyAt(pre + b, |pre|, PSK_KEY);
    assert (pre + a)[|pre| + 7..] == v && (pre + b)[|pre| + 4..] == v;
    assert !("- ssid:" <= b) by { assert b[0] == 'p'; }
    if st.open_ {
      var i := |st.nets| - 1;
      assert st.nets[i := Net(st.nets[i].ssid, Value(v, 65))] == st.nets[..i] + [Net(st.nets[i].ssid, Value(v, 65))];
    }
  }

  // The printed file of one network.
  lemma OneSaved(n: Net)
    ensures Saved([n]) == "networks:" + ("\n" + (("  - ssid: " + n.ssid) + ("\n"
                        + (("    psk: " + (if n.psk == "" then "\"\"" else n.psk)) + ("\n" + "")))))
  {
    var a, b := SsidLine(n), PskLine(n);
    assert [n][1..] == [] && NetLines([]) == [];
    assert NetLines([n]) == [a, b];
    JoinThree("networks:", a, b);
    assert ["networks:"] + [a, b] == ["networks:", a, b];
  }

  lemma JoinThree(a: string, b: string, c: string)
    ensures Join([a, b, c]) == a + ("\n" + (b + ("\n" + (c + ("\n" + "")))))
  {
    assert [a, b, c][1..] == [b, c] && [b, c][1..] == [c] && [c][1..] == [];
    assert Join([c]) == c + ("\n" + Join([])) && Join([b, c]) == b + ("\n" + Join([c]));
  }
}
