// The known-networks store with its state: the parser that cuts its buffer in
// place (sdk/net/known_yaml.c), and the file that the WiFi app reads, changes and
// rewrites as a whole (apps/user/wifi/wifi.c).

module KnownStore {
  import opened Chars
  import opened Text
  import opened KnownYaml
  import opened KnownMap

  const NUL := '\0'

  // A C string at `p`: it ends at the first NUL.
  ghost predicate CString(buf: array<char>, p: nat, text: string)
    reads buf
  {
    && p + |text| < buf.Length && buf[p + |text|] == NUL
    && forall k | 0 <= k < |text| :: buf[p + k] == text[k] != NUL
  }

  // ----- Parsing in place ----------------------------------------------------------------

  method StrLen(buf: array<char>, p: nat, ghost text: string) returns (n: nat)
    requires CString(buf, p, text)
    ensures n == |text|
  {
    n := 0;
    while buf[p + n] != NUL
      invariant n <= |text| && (n < |text| ==> buf[p + n] == text[n])
      decreases |text| - n
    {
      n := n + 1;
    }
  }

  // strncmp with the length of the key.
  method Matches(buf: array<char>, p: nat, key: string, ghost text: string) returns (ok: bool)
    requires CString(buf, p, text) && Without(key, NUL)
    ensures ok <==> Starts(text, 0, key)
  {
    var k := 0;
    while k < |key| && buf[p + k] == key[k]
      invariant k <= |key| && k <= |text| && text[..k] == key[..k]
      decreases |key| - k
    {
      k := k + 1;
    }
    ok := k == |key|;
    assert !ok && |key| <= |text| ==> text[..|key|][k] != key[k];
  }

  method SkipBlanks(buf: array<char>, p: nat, ghost text: string) returns (n: nat)
    requires CString(buf, p, text)
    ensures n == SkipSpace(text, 0)
  {
    n := 0;
    while buf[p + n] != NUL && IsSpace(buf[p + n])
      invariant n <= |text| && SkipSpace(text, n) == SkipSpace(text, 0)
      decreases |text| - n
    {
      n := n + 1;
    }
  }

  // Where the text from `n` on ends without its trailing whitespace.
  method TrimTail(buf: array<char>, p: nat, n: nat, ghost text: string) returns (len: nat)
    requires CString(buf, p, text) && n <= |text|
    ensures n + len <= |text| && n + len == TrimEnd(text, n, |text|)
  {
    TailString(buf, p, n, text);
    len := StrLen(buf, p + n, text[n..]);
    while len > 0 && IsSpace(buf[p + n + len - 1])
      invariant n + len <= |text|
      invariant TrimEnd(text, n, n + len) == TrimEnd(text, n, |text|)
    {
      assert buf[p + (n + len - 1)] == text[n + len - 1];
      len := len - 1;
    }
    assert len > 0 ==> buf[p + (n + len - 1)] == text[n + len - 1];
  }

  lemma TailString(buf: array<char>, p: nat, n: nat, text: string)
    requires CString(buf, p, text) && n <= |text|
    ensures CString(buf, p + n, text[n..])
  {
    forall k | 0 <= k < |text[n..]| ensures buf[p + n + k] == text[n..][k] != NUL {
      assert text[n..][k] == text[n + k];
    }
  }

  lemma PieceOf(buf: array<char>, p: nat, text: string, a: nat, b: nat)
    requires CString(buf, p, text) && a <= b <= |text|
    ensures buf[p + a..p + b] == text[a..b]
  {
    forall k | 0 <= k < b - a ensures buf[p + a..p + b][k] == text[a..b][k] {
      assert text[a + k] == buf[p + (a + k)];
    }
  }

  // known_yaml_copy_value.
  method CopyValue(buf: array<char>, p: nat, cap: nat, ghost text: string) returns (v: string)
    requires CString(buf, p, text) && cap > 0
    ensures v == Value(text, cap)
  {
    hide SkipSpace, TrimEnd, CString, Cut, Unquote;
    var at := SkipBlanks(buf, p, text);
    var len := TrimTail(buf, p, at, text);
    ghost var t := Trim(text);
    assert t == text[at..at + len];
    PieceOf(buf, p, text, at, at + len);
    StringFits(buf, p, text);
    v := Fit(buf[p + at..p + at + len], cap);
  }

  // Its second half: the quotes come off, and the field cuts what is left.
  method Fit(t: string, cap: nat) returns (v: string)
    requires cap > 0
    ensures v == Cut(Unquote(t), cap - 1)
  {
    v := t;
    var len := |v|;
    if len >= 2 && v[0] == '"' && v[len - 1] == '"' {
      v, len := v[1..len - 1], len - 2;
    }
    if len >= cap { v := v[..cap - 1]; }
  }

  lemma StringFits(buf: array<char>, p: nat, text: string)
    requires CString(buf, p, text)
    ensures p + |text| < buf.Length
  {}

  // The entries filled so far, and whether `open_entry` names the last one.
  ghost function StoreOf(nets: array<Net>, count: nat, open: int): Store
    requires count <= nets.Length
    reads nets
  {
    Store(nets[..count], open >= 0)
  }

  ghost predicate Coherent(nets: array<Net>, count: nat, open: int, max: nat) {
    count <= max <= nets.Length && (open >= 0 ==> open == count - 1)
  }

  // The "- ssid:" branch.
  method OpenEntryAt(nets: array<Net>, count: nat, max: nat, v: string) returns (count': nat, open: int)
    requires count <= max <= nets.Length
    modifies nets
    ensures Coherent(nets, count', open, max)
    ensures forall b :: StoreOf(nets, count', open) == OpenEntry(Store(old(nets[..count]), b), v, max)
  {
    count', open := count, -1;
    if count < max {
      nets[count] := Net(v, "");
      if v != "" { open, count' := count, count + 1; }
    }
  }

  // The body of the line loop.
  method HandleLine(buf: array<char>, p: nat, ghost l: string,
                    nets: array<Net>, max: nat, count: nat, open: int)
    returns (count': nat, open': int)
    requires CString(buf, p, l) && Coherent(nets, count, open, max)
    modifies nets
    ensures Coherent(nets, count', open', max)
    ensures StoreOf(nets, count', open') == ParseLine(old(StoreOf(nets, count, open)), l, max)
  {
    hide Value, SkipSpace, CString, OpenEntry;
    count', open' := count, open;
    var n := SkipBlanks(buf, p, l);
    TailString(buf, p, n, l);
    ghost var t := l[n..];
    EndsAt(buf, p, n, l);
    if buf[p + n] != NUL && buf[p + n] != '#' {
      StartsTail(l, n, SSID_KEY);
      StartsTail(l, n, PSK_KEY);
      var isSsid := Matches(buf, p + n, SSID_KEY, t);
      if isSsid {
        TailString(buf, p, n + 7, l);
        var v := CopyValue(buf, p + n + 7, SSID_CAP, l[n + 7..]);
        count', open' := OpenEntryAt(nets, count, max, v);
      } else if open >= 0 {
        var isPsk := Matches(buf, p + n, PSK_KEY, t);
        if isPsk {
          TailString(buf, p, n + 4, l);
          var v := CopyValue(buf, p + n + 4, PSK_CAP, l[n + 4..]);
          nets[open] := Net(nets[open].ssid, v);
          open' := -1;
        }
      }
    }
  }

  lemma EndsAt(buf: array<char>, p: nat, n: nat, text: string)
    requires CString(buf, p, text) && n <= |text|
    ensures p + n < buf.Length && (buf[p + n] == NUL <==> n == |text|)
    ensures n < |text| ==> buf[p + n] == text[n]
  {
    if n < |text| { assert text[n] != NUL; }
  }

  lemma StartsTail(l: string, n: nat, key: string)
    requires n <= |l|
    ensures Starts(l[n..], 0, key) <==> Starts(l, n, key)
  {
    if n + |key| <= |l| { assert l[n..][0..|key|] == l[n..n + |key|]; }
  }

  // The text from `p` on is still in the buffer as it was.
  ghost predicate Rest(buf: array<char>, text: string, p: nat)
    reads buf
  {
    && p <= |text| < buf.Length && buf[|text|] == NUL
    && forall k | p <= k < |text| :: buf[k] == text[k] != NUL
  }

  // Before `p`, every newline is now a NUL.
  ghost predicate CutUpTo(buf: array<char>, text: string, p: nat)
    requires p <= |text| < buf.Length
    reads buf
  {
    forall k | 0 <= k < p :: buf[k] == if text[k] == '\n' then NUL else text[k]
  }

  // strchr for a newline: its index, or the end of the string.
  method FindNewline(buf: array<char>, p: nat, ghost text: string) returns (e: nat)
    requires Rest(buf, text, p)
    ensures e == LineEnd(text, p)
    ensures forall k | p <= k < e :: text[k] != '\n'
    ensures e < |text| <==> buf[e] != NUL
  {
    hide LineEnd;
    e := p;
    while buf[e] != NUL && buf[e] != '\n'
      invariant p <= e <= |text| && LineEnd(text, e) == LineEnd(text, p)
      invariant e < |text| ==> buf[e] == text[e]
      invariant forall k | p <= k < e :: text[k] != '\n'
      decreases |text| - e
    {
      LineEndStep(text, e);
      e := e + 1;
    }
    LineEndStep(text, e);
  }

  // known_yaml_parse: one pass that cuts the lines apart and fills the table.
  method ParseInPlace(buf: array<char>, ghost text: string, nets: array<Net>, max: nat) returns (count: nat)
    requires Rest(buf, text, 0) && max <= nets.Length
    modifies buf, nets
    ensures count <= max && nets[..count] == Parse(text, max)
    ensures buf[|text|] == NUL && CutUpTo(buf, text, |text|)
  {
    hide ParseLine, LineEnd, CString;
    count := 0;
    var open, line, more := -1, 0, true;
    while more && buf[line] != NUL
      invariant Rest(buf, text, line) && CutUpTo(buf, text, line)
      invariant !more ==> line == |text|
      invariant Coherent(nets, count, open, max)
      invariant ParseFrom(StoreOf(nets, count, open), text, line, max) == ParseFrom(START, text, 0, max)
      decreases |text| - line, more
    {
      var e := FindNewline(buf, line, text);
      var found := buf[e] != NUL;
      if found { buf[e] := NUL; }
      LineString(buf, text, line, e);
      count, open := HandleLine(buf, line, text[line..e], nets, max, count, open);
      if found { line := e + 1; } else { more, line := false, e; }
    }
  }

  lemma LineString(buf: array<char>, text: string, p: nat, e: nat)
    requires p <= e <= |text| < buf.Length && buf[e] == NUL
    requires forall k | p <= k < e :: buf[k] == text[k] != NUL
    ensures CString(buf, p, text[p..e])
  {
    forall k | 0 <= k < e - p ensures buf[p + k] == text[p..e][k] != NUL {
      assert text[p..e][k] == text[p + k];
    }
  }

  // ----- The app -------------------------------------------------------------------------------

  datatype File = Missing | Holds(text: string)

  // The table in memory and the two places its file can be. `hasData` says
  // whether the /data partition is there to write to.
  class WifiApp {
    const hasData: bool
    const known: array<Net>
    var count: nat
    var data: File
    var seed: File

    ghost predicate Valid()
      reads this
    {
      known.Length == MAX_NETS && count <= MAX_NETS && (!hasData ==> data.Missing?)
    }

    // The file a load reads: /data once it is there, else the seed.
    ghost function Current(): string
      reads this
    {
      if data.Holds? then data.text else if seed.Holds? then seed.text else ""
    }

    constructor (hasData: bool, data: File, seed: File)
      requires !hasData ==> data.Missing?
      ensures Valid() && fresh(known) && this.data == data && this.seed == seed
    {
      this.hasData, this.data, this.seed, count := hasData, data, seed, 0;
      known := new Net[MAX_NETS](i => Net("", ""));
    }

    // known_yaml_read into the parse buffer, then known_yaml_parse.
    method LoadFile(file: string)
      requires Valid()
      modifies known, `count
      ensures Valid() && known[..count] == Load(file)
    {
      hide Parse, NulAt;
      var buf := new char[BUF_SIZE](i => NUL);
      var n := if |file| < BUF_SIZE - 1 then |file| else BUF_SIZE - 1;
      var i := 0;
      while i < n
        invariant i <= n && forall k | 0 <= k < BUF_SIZE :: buf[k] == if k < i then file[k] else NUL
      {
        buf[i] := file[i];
        i := i + 1;
      }
      ClipIs(file);
      count := ParseInPlace(buf, Clip(file), known, MAX_NETS);
    }

    method LoadKnown()
      requires Valid()
      modifies known, `count
      ensures Valid() && known[..count] == Load(Current())
    {
      match data {
        case Holds(text) => LoadFile(text);
        case Missing =>
          match seed {
            case Holds(text) => LoadFile(text);
            case Missing => LoadsNothing(); count := 0;
          }
      }
    }

    method FindKnown(ssid: string) returns (i: nat)
      requires Valid()
      ensures i == Find(known[..count], ssid)
    {
      i := 0;
      while i < count && known[i].ssid != ssid
        invariant i <= count && Find(known[..count], ssid) == i + Find(known[i..count], ssid)
      {
        assert known[i..count][1..] == known[i + 1..count];
        i := i + 1;
      }
    }

    method SaveKnown()
      requires Valid()
      modifies `data, `seed
      ensures Valid() && Current() == Saved(known[..count])
    {
      var text := "networks:\n";
      var i := 0;
      SavedIs(known[..count]);
      assert known[0..count] == known[..count];
      while i < count
        invariant data == old(data)
        invariant i <= count && text + Join(NetLines(known[i..count])) == Saved(known[..count])
      {
        var n := known[i];
        ghost var rest := known[i + 1..count];
        assert known[i..count] == [n] + rest;
        OneMore(text, n, rest);
        text := text + "  - ssid: " + n.ssid + "\n    psk: " + (if n.psk != "" then n.psk else "\"\"") + "\n";
        i := i + 1;
      }
      assert known[i..count] == [];
      assert Join(NetLines([])) == "";
      if hasData { data := Holds(text); } else { seed := Holds(text); }
    }

    method SetKnown(ssid: string, psk: string)
      requires Valid()
      modifies this, known
      ensures Valid() && Current() == StepFile(old(Current()), Set(ssid, psk))
    {
      hide Load, Saved, Find;
      LoadKnown();
      ghost var nets := known[..count];
      var i := FindKnown(ssid);
      FindBound(nets, ssid);
      if i == count {
        if count >= MAX_NETS { return; }
        count := count + 1;
        known[i] := Net(Cut(ssid, SSID_CAP - 1), "");
      }
      known[i] := Net(known[i].ssid, Cut(psk, PSK_CAP - 1));
      assert known[..count] == Upsert(nets, ssid, psk);
      SaveKnown();
    }

    method RemoveKnown(ssid: string)
      requires Valid()
      modifies this, known
      ensures Valid() && Current() == StepFile(old(Current()), Remove(ssid))
    {
      hide Load, Saved, Find;
      LoadKnown();
      ghost var nets := known[..count];
      var i := FindKnown(ssid);
      FindBound(nets, ssid);
      if i == count { return; }
      Close(i);
      SaveKnown();
    }

    // The entries after `at` move down over it.
    method Close(at: nat)
      requires Valid() && at < count
      modifies known, `count
      ensures Valid() && known[..count] == old(known[..count][..at] + known[..count][at + 1..])
    {
      var i := at;
      while i < count - 1
        invariant at <= i < count && count == old(count)
        invariant forall k | 0 <= k < count :: known[k] == old(known[if at <= k < i then k + 1 else k])
      {
        known[i] := known[i + 1];
        i := i + 1;
      }
      count := count - 1;
    }
  }

  lemma ClipIs(file: string)
    ensures var c := Clip(file);
      && Without(c, NUL) && c <= file && |c| < BUF_SIZE
      && (|c| < |file| ==> |c| == BUF_SIZE - 1 || file[|c|] == NUL)
  {
    NulAtIs(Cut(file, BUF_SIZE - 1), 0);
  }

  lemma {:induction false} NulAtIs(s: string, p: nat)
    requires p <= |s|
    ensures var e := NulAt(s, p);
      && (e < |s| ==> s[e] == NUL) && forall k | p <= k < e :: s[k] != NUL
    decreases |s| - p
  {
    if p < |s| && s[p] != NUL { NulAtIs(s, p + 1); }
  }

  lemma LoadsNothing()
    ensures Load("") == []
  {
    EmptyLoads();
  }

  lemma SavedIs(nets: seq<Net>)
    ensures Saved(nets) == "networks:\n" + Join(NetLines(nets))
  {
    assert (["networks:"] + NetLines(nets))[1..] == NetLines(nets);
  }

  // The dprintf of one network prints its two lines.
  lemma OneMore(text: string, n: Net, rest: seq<Net>)
    ensures text + Join(NetLines([n] + rest)) ==
            text + "  - ssid: " + n.ssid + "\n    psk: " + Shown(n.psk) + "\n" + Join(NetLines(rest))
  {
    assert ([n] + rest)[1..] == rest;
    JoinTwo(SsidLine(n), PskLine(n), NetLines(rest));
    assert "\n" + "    psk: " == "\n    psk: ";
  }
}
