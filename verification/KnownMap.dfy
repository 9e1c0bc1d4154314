// The WiFi app's known networks over any run of saves and removals: each one
// reads the whole file, changes the table and prints the file again
// (apps/user/wifi/wifi.c). The file behaves as a finite map from ssid to psk.

module KnownMap {
  import opened Text
  import opened KnownYaml

  // What known_yaml_load sees of a file: as much as the buffer takes, up to a NUL.
  function NulAt(s: string, p: nat): (e: nat)
    requires p <= |s|
    ensures p <= e <= |s|
    decreases |s| - p
  {
    if p == |s| || s[p] == '\0' then p else NulAt(s, p + 1)
  }

  function Clip(s: string): string {
    var t := Cut(s, BUF_SIZE - 1);
    t[..NulAt(t, 0)]
  }

  function Load(file: string): seq<Net> { Parse(Clip(file), MAX_NETS) }

  // find_known: the first entry of that name, or the length.
  function Find(nets: seq<Net>, ssid: string): (i: nat)
    ensures i <= |nets| && (i < |nets| ==> nets[i].ssid == ssid)
    decreases |nets|
  {
    if nets == [] || nets[0].ssid == ssid then 0 else 1 + Find(nets[1..], ssid)
  }

  // set_known and remove_known on the table; a value too long for its field is cut.
  function Upsert(nets: seq<Net>, ssid: string, psk: string): seq<Net> {
    var i, v := Find(nets, ssid), Cut(psk, PSK_CAP - 1);
    if i < |nets| then nets[i := Net(nets[i].ssid, v)]
    else if |nets| < MAX_NETS then nets + [Net(Cut(ssid, SSID_CAP - 1), v)]
    else nets
  }

  function Drop(nets: seq<Net>, ssid: string): seq<Net> {
    var i := Find(nets, ssid);
    if i < |nets| then nets[..i] + nets[i + 1..] else nets
  }

  // ----- Tables a file can hold --------------------------------------------------------------

  // A network that the table can hold and that keeps to its two lines of the file.
  predicate Fielded(n: Net) { Short(n) && Clean(n, '\n') && Clean(n, '\0') }
  ghost predicate AllFielded(nets: seq<Net>) {
    |nets| <= MAX_NETS && forall k | 0 <= k < |nets| :: Fielded(nets[k])
  }

  predicate Storable(n: Net) { Survives(n) && Clean(n, '\n') && Clean(n, '\0') }

  ghost predicate Table(nets: seq<Net>) {
    && |nets| <= MAX_NETS
    && (forall k | 0 <= k < |nets| :: Storable(nets[k]))
    && (forall i, j | 0 <= i < j < |nets| :: nets[i].ssid != nets[j].ssid)
  }

  // ----- The file holds the table ---------------------------------------------------------------

  lemma JoinTwo(a: string, b: string, more: seq<string>)
    ensures Join([a, b] + more) == a + ("\n" + (b + ("\n" + Join(more))))
  {
    assert ([a, b] + more)[1..] == [b] + more;
    assert ([b] + more)[1..] == more;
  }

  lemma {:induction false} LinesFit(nets: seq<Net>)
    requires forall k | 0 <= k < |nets| :: Fielded(nets[k])
    ensures |Join(NetLines(nets))| <= 117 * |nets|
    ensures Without(Join(NetLines(nets)), '\0')
    decreases |nets|
  {
    hide Without;
    if nets == [] {
      assert Join([]) == "";
      NoneWithout('\0');
    } else {
      var n, more := nets[0], NetLines(nets[1..]);
      LinesFit(nets[1..]);
      JoinTwo(SsidLine(n), PskLine(n), more);
      NetLinesWithout(n, '\0');
      NoneWithout('\0');
      WithoutCat("\n", Join(more), '\0');
      WithoutCat(PskLine(n), "\n" + Join(more), '\0');
      WithoutCat("\n", PskLine(n) + ("\n" + Join(more)), '\0');
      WithoutCat(SsidLine(n), "\n" + (PskLine(n) + ("\n" + Join(more))), '\0');
    }
  }

  lemma NoneWithout(c: char)
    requires c == '\0'
    ensures Without("", c) && Without("\n", c) && Without("networks:\n", c)
  {}

  lemma {:induction false} NulAtEnd(s: string, p: nat)
    requires p <= |s| && Without(s, '\0')
    ensures NulAt(s, p) == |s|
    decreases |s| - p
  {
    if p < |s| { NulAtEnd(s, p + 1); }
  }

  // A full table of the longest values prints 1882 characters, within the
  // load buffer, so nothing of it is cut off.
  lemma SavedFits(nets: seq<Net>)
    requires AllFielded(nets)
    ensures |Saved(nets)| <= 1882 < 2047 == BUF_SIZE - 1 && Clip(Saved(nets)) == Saved(nets)
  {
    hide Without, NulAt, Fielded;
    LinesFit(nets);
    NoneWithout('\0');
    var s := Saved(nets);
    assert (["networks:"] + NetLines(nets))[1..] == NetLines(nets);
    assert s == "networks:\n" + Join(NetLines(nets));
    WithoutCat("networks:\n", Join(NetLines(nets)), '\0');
    NulAtEnd(s, 0);
  }

  // What save_known leaves, load_known finds.
  lemma SavedLoads(nets: seq<Net>)
    requires Table(nets)
    ensures Load(Saved(nets)) == nets
  {
    hide Parse, Saved, Clip;
    assert AllFielded(nets);
    SavedFits(nets);
    SavedReloads(nets, MAX_NETS);
  }

  // ----- Tables under saves and removals ------------------------------------------------------------

  lemma {:induction false} FindFirst(nets: seq<Net>, ssid: string)
    ensures var i := Find(nets, ssid); forall k | 0 <= k < i :: nets[k].ssid != ssid
    decreases |nets|
  {
    if nets != [] && nets[0].ssid != ssid {
      FindFirst(nets[1..], ssid);
      var i := Find(nets, ssid);
      forall k | 0 <= k < i ensures nets[k].ssid != ssid {
        if k > 0 { assert nets[k] == nets[1..][k - 1]; }
      }
    }
  }

  lemma StorableFits(n: Net)
    requires Storable(n)
    ensures |n.ssid| < SSID_CAP && |n.psk| < PSK_CAP
  {}

  lemma UpsertKeeps(nets: seq<Net>, ssid: string, psk: string)
    requires Table(nets) && Storable(Net(ssid, psk))
    ensures Table(Upsert(nets, ssid, psk))
    ensures Cut(ssid, SSID_CAP - 1) == ssid && Cut(psk, PSK_CAP - 1) == psk
  {
    hide Survives, Clean, Find;
    StorableFits(Net(ssid, psk));
    FindFirst(nets, ssid);
  }

  lemma DropKeeps(nets: seq<Net>, ssid: string)
    requires Table(nets)
    ensures Table(Drop(nets, ssid))
  {
    hide Storable, Find;
    FindBound(nets, ssid);
    var i, r := Find(nets, ssid), Drop(nets, ssid);
    if i < |nets| {
      assert forall k | 0 <= k < |r| :: r[k] == nets[if k < i then k else k + 1];
    }
  }

  lemma FindBound(nets: seq<Net>, ssid: string)
    ensures Find(nets, ssid) <= |nets|
  {}

  // ----- The map -----------------------------------------------------------------------------------

  function AsMap(nets: seq<Net>): map<string, string>
    decreases |nets|
  {
    if nets == [] then map[] else AsMap(nets[1..])[nets[0].ssid := nets[0].psk]
  }

  datatype Event = Set(ssid: string, psk: string) | Remove(ssid: string)

  function StepTable(nets: seq<Net>, e: Event): seq<Net> {
    match e
    case Set(ssid, psk) => Upsert(nets, ssid, psk)
    case Remove(ssid) => Drop(nets, ssid)
  }

  // A map with room for sixteen names.
  function StepMap(m: map<string, string>, e: Event): map<string, string> {
    match e
    case Set(ssid, psk) => if ssid in m || |m| < MAX_NETS then m[ssid := psk] else m
    case Remove(ssid) => m - {ssid}
  }

  lemma {:induction false} FindIsKey(nets: seq<Net>, ssid: string)
    ensures ssid in AsMap(nets) <==> Find(nets, ssid) < |nets|
    ensures ssid in AsMap(nets) ==> AsMap(nets)[ssid] == nets[Find(nets, ssid)].psk
    decreases |nets|
  {
    if nets != [] { FindIsKey(nets[1..], ssid); }
  }

  lemma {:induction false} UpdateMap(nets: seq<Net>, ssid: string, psk: string)
    requires Find(nets, ssid) < |nets|
    ensures var i := Find(nets, ssid);
      AsMap(nets[i := Net(nets[i].ssid, psk)]) == AsMap(nets)[ssid := psk]
    decreases |nets|
  {
    if nets[0].ssid != ssid {
      UpdateMap(nets[1..], ssid, psk);
      var i := Find(nets, ssid);
      assert nets[i := Net(nets[i].ssid, psk)][1..] == nets[1..][i - 1 := Net(nets[i].ssid, psk)];
    }
  }

  lemma {:induction false} AppendMap(nets: seq<Net>, n: Net)
    requires Find(nets, n.ssid) == |nets|
    ensures AsMap(nets + [n]) == AsMap(nets)[n.ssid := n.psk]
    decreases |nets|
  {
    if nets == [] {
      assert nets + [n] == [n] && [n][1..] == [];
    } else {
      AppendMap(nets[1..], n);
      assert (nets + [n])[1..] == nets[1..] + [n];
    }
  }

  ghost predicate Distinct(nets: seq<Net>) {
    forall i, j | 0 <= i < j < |nets| :: nets[i].ssid != nets[j].ssid
  }

  lemma DropTail(nets: seq<Net>, ssid: string)
    requires nets != []
    ensures Drop(nets, ssid) == if nets[0].ssid == ssid then nets[1..] else [nets[0]] + Drop(nets[1..], ssid)
  {
    var i, tail := Find(nets, ssid), nets[1..];
    if nets[0].ssid != ssid {
      FindBound(tail, ssid);
      if i < |nets| {
        assert nets[..i] == [nets[0]] + tail[..i - 1];
        assert nets[i + 1..] == tail[i..];
      }
    }
  }

  lemma ConsMap(n: Net, tail: seq<Net>)
    ensures AsMap([n] + tail) == AsMap(tail)[n.ssid := n.psk]
  {
    assert ([n] + tail)[1..] == tail;
  }

  lemma DistinctTail(nets: seq<Net>)
    requires nets != [] && Distinct(nets)
    ensures Distinct(nets[1..]) && nets[0].ssid !in AsMap(nets[1..])
  {
    FindIsKey(nets[1..], nets[0].ssid);
  }

  lemma {:induction false} DropMap(nets: seq<Net>, ssid: string)
    requires Distinct(nets)
    ensures AsMap(Drop(nets, ssid)) == AsMap(nets) - {ssid}
    decreases |nets|
  {
    hide Find, Drop, AsMap, Distinct;
    NoneMap(ssid);
    if nets != [] {
      var n, tail := nets[0], nets[1..];
      DistinctTail(nets);
      DropTail(nets, ssid);
      DropMap(tail, ssid);
      ConsMap(n, tail);
      assert nets == [n] + tail;
      ConsMap(n, Drop(tail, ssid));
    }
  }

  lemma NoneMap(ssid: string)
    ensures Drop([], ssid) == [] && AsMap([]) == map[]
  {}

  lemma {:induction false} MapSize(nets: seq<Net>)
    requires Distinct(nets)
    ensures |AsMap(nets)| == |nets|
    decreases |nets|
  {
    if nets != [] {
      MapSize(nets[1..]);
      FindIsKey(nets[1..], nets[0].ssid);
    }
  }

  // One change to the table is that change to the map, and leaves a table.
  lemma StepRefines(nets: seq<Net>, e: Event)
    requires Table(nets) && (e.Set? ==> Storable(Net(e.ssid, e.psk)))
    ensures Table(StepTable(nets, e))
    ensures AsMap(StepTable(nets, e)) == StepMap(AsMap(nets), e)
  {
    hide Find, AsMap, Storable;
    assert Distinct(nets);
    FindIsKey(nets, e.ssid);
    FindBound(nets, e.ssid);
    MapSize(nets);
    match e
    case Set(ssid, psk) =>
      UpsertKeeps(nets, ssid, psk);
      if Find(nets, ssid) < |nets| { UpdateMap(nets, ssid, psk); } else { AppendMap(nets, Net(ssid, psk)); }
    case Remove(ssid) =>
      DropKeeps(nets, ssid);
      DropMap(nets, ssid);
  }

  // ----- Runs ---------------------------------------------------------------------------------------

  // The file is rewritten unless there is nothing to change.
  predicate Rewrites(nets: seq<Net>, e: Event) {
    Find(nets, e.ssid) < |nets| || (e.Set? && |nets| < MAX_NETS)
  }

  function StepFile(file: string, e: Event): string {
    var nets := Load(file);
    if Rewrites(nets, e) then Saved(StepTable(nets, e)) else file
  }

  function RunFile(file: string, es: seq<Event>): string
    decreases |es|
  {
    if es == [] then file else RunFile(StepFile(file, es[0]), es[1..])
  }

  function RunMap(m: map<string, string>, es: seq<Event>): map<string, string>
    decreases |es|
  {
    if es == [] then m else RunMap(StepMap(m, es[0]), es[1..])
  }

  ghost predicate StorableEvents(es: seq<Event>) {
    forall k | 0 <= k < |es| :: es[k].Set? ==> Storable(Net(es[k].ssid, es[k].psk))
  }

  lemma StepLoads(file: string, e: Event)
    requires Table(Load(file)) && (e.Set? ==> Storable(Net(e.ssid, e.psk)))
    ensures Table(Load(StepFile(file, e)))
    ensures AsMap(Load(StepFile(file, e))) == StepMap(AsMap(Load(file)), e)
  {
    hide Table, Storable, Load, Saved, AsMap, StepMap, Find;
    var nets := Load(file);
    StepRefines(nets, e);
    if Rewrites(nets, e) { SavedLoads(StepTable(nets, e)); } else { FindBound(nets, e.ssid); }
  }

  // After any run of saves and removals, what the file holds is the map that the
  // run makes of what it held before.
  lemma {:induction false} FileIsMap(file: string, es: seq<Event>)
    requires Table(Load(file)) && StorableEvents(es)
    ensures Table(Load(RunFile(file, es)))
    ensures AsMap(Load(RunFile(file, es))) == RunMap(AsMap(Load(file)), es)
    decreases |es|
  {
    hide Table, Storable, Load, AsMap, StepMap, StepFile;
    if es != [] {
      StepLoads(file, es[0]);
      forall k | 0 <= k < |es| - 1
        ensures es[1..][k].Set? ==> Storable(Net(es[1..][k].ssid, es[1..][k].psk)) {
        assert es[1..][k] == es[k + 1];
      }
      FileIsMap(StepFile(file, es[0]), es[1..]);
    }
  }

  // ----- Files written by hand ------------------------------------------------------------------------

  lemma {:induction false} BeforeNul(s: string, p: nat)
    requires p <= |s|
    ensures Without(s[p..NulAt(s, p)], '\0')
    decreases |s| - p
  {
    if p < |s| && s[p] != '\0' {
      BeforeNul(s, p + 1);
      assert s[p..NulAt(s, p)] == [s[p]] + s[p + 1..NulAt(s, p + 1)];
    }
  }

  // Whatever a file holds, a load makes a table of it that a save can print.
  lemma LoadFielded(file: string)
    ensures AllFielded(Load(file))
  {
    hide Clip, Without, Short, Clean;
    var t := Cut(file, BUF_SIZE - 1);
    BeforeNul(t, 0);
    assert Clip(file) == t[0..NulAt(t, 0)] by { assert t[..NulAt(t, 0)] == t[0..NulAt(t, 0)]; ClippedIs(file); }
    ParsedShort(START, Clip(file), 0, MAX_NETS);
    ParsedClean(START, Clip(file), 0, MAX_NETS, '\n');
    ParsedClean(START, Clip(file), 0, MAX_NETS, '\0');
  }

  lemma ClippedIs(file: string)
    ensures var t := Cut(file, BUF_SIZE - 1); Clip(file) == t[..NulAt(t, 0)]
  {}

  // The values of a change are one line of text each.
  predicate OneLine(e: Event) {
    e.Set? ==> Clean(Net(e.ssid, e.psk), '\n') && Clean(Net(e.ssid, e.psk), '\0')
  }

  lemma CutClean(v: string, room: nat, c: char)
    requires Without(v, c)
    ensures Without(Cut(v, room), c)
  {}

  lemma StepFielded(nets: seq<Net>, e: Event)
    requires AllFielded(nets) && OneLine(e)
    ensures AllFielded(StepTable(nets, e))
  {
    hide Find, Without;
    FindBound(nets, e.ssid);
    match e
    case Set(ssid, psk) =>
      CutClean(ssid, SSID_CAP - 1, '\n'); CutClean(ssid, SSID_CAP - 1, '\0');
      CutClean(psk, PSK_CAP - 1, '\n'); CutClean(psk, PSK_CAP - 1, '\0');
      var i, r := Find(nets, ssid), StepTable(nets, e);
      forall k | 0 <= k < |r| ensures Fielded(r[k]) {
        if i < |nets| { assert Fielded(nets[i]); }
        if k < |nets| { assert Fielded(nets[k]); }
      }
    case Remove(ssid) =>
      var i, r := Find(nets, ssid), StepTable(nets, e);
      forall k | 0 <= k < |r| ensures Fielded(r[k]) {
        assert r[k] == nets[if k < i then k else k + 1];
      }
  }

  // One change to any file at all: the file then reads as the changed table with
  // every entry printed and read back, those without a name gone. That is the
  // changed table itself if and only if all its entries survive.
  lemma AnyFileStep(file: string, e: Event)
    requires OneLine(e)
    ensures var nets, now := StepTable(Load(file), e), Load(StepFile(file, e));
      if Rewrites(Load(file), e)
      then now == ReadNets([], nets, MAX_NETS) && (now == nets <==> AllSurvive(nets))
      else now == nets == Load(file)
  {
    hide Load, Saved, OneLine, Survives, ReadNets;
    LoadFielded(file);
    StepFielded(Load(file), e);
    var nets := StepTable(Load(file), e);
    FindBound(Load(file), e.ssid);
    SavedRereads(nets);
    ReadNetsIs([], nets, MAX_NETS);
    assert [] + nets == nets;
    if nets == [] { assert AllSurvive(nets); }
  }

  lemma {:induction false} FindNone(nets: seq<Net>, ssid: string)
    requires forall k | 0 <= k < |nets| :: nets[k].ssid != ssid
    ensures Find(nets, ssid) == |nets|
    decreases |nets|
  {
    if nets != [] { FindNone(nets[1..], ssid); }
  }

  // Where there is nothing to change the file is left alone: a name that is not there
  // is to go, or a new one finds sixteen.
  lemma NothingToDo(file: string, e: Event)
    requires forall k | 0 <= k < |Load(file)| :: Load(file)[k].ssid != e.ssid
    requires e.Remove? || |Load(file)| >= 16
    ensures StepFile(file, e) == file
  {
    FindNone(Load(file), e.ssid);
  }

  // The table after one change: printed and read back if there was one.
  function StepReread(nets: seq<Net>, e: Event): seq<Net> {
    if Rewrites(nets, e) then ReadNets([], StepTable(nets, e), MAX_NETS) else nets
  }

  function RunReread(nets: seq<Net>, es: seq<Event>): seq<Net>
    decreases |es|
  {
    if es == [] then nets else RunReread(StepReread(nets, es[0]), es[1..])
  }

  // Any run of changes to any file at all, change by change.
  lemma {:induction false} AnyFileRun(file: string, es: seq<Event>)
    requires forall k | 0 <= k < |es| :: OneLine(es[k])
    ensures Load(RunFile(file, es)) == RunReread(Load(file), es)
    decreases |es|
  {
    hide Load, OneLine, StepFile, ReadNets, StepTable, Rewrites, Survives;
    if es != [] {
      AnyFileStep(file, es[0]);
      forall k | 0 <= k < |es| - 1 ensures OneLine(es[1..][k]) { assert es[1..][k] == es[k + 1]; }
      AnyFileRun(StepFile(file, es[0]), es[1..]);
    }
  }

  lemma SavedRereads(nets: seq<Net>)
    requires AllFielded(nets)
    ensures Load(Saved(nets)) == ReadNets([], nets, MAX_NETS)
  {
    hide Clip, Saved, ReadNets, Parse;
    SavedFits(nets);
    assert AllClean(nets, '\n');
    OneLineParses(nets, MAX_NETS);
  }

  // Does a name occur behind its first entry?
  ghost predicate Twice(nets: seq<Net>, ssid: string) {
    exists j :: Find(nets, ssid) < j < |nets| && nets[j].ssid == ssid
  }

  lemma {:induction false} DropLooks(nets: seq<Net>, ssid: string, other: string)
    ensures other != ssid ==>
      && (other in AsMap(Drop(nets, ssid)) <==> other in AsMap(nets))
      && (other in AsMap(nets) ==> AsMap(Drop(nets, ssid))[other] == AsMap(nets)[other])
    decreases |nets|
  {
    hide Find, Drop, AsMap;
    NoneMap(ssid);
    if nets != [] {
      var n, tail := nets[0], nets[1..];
      DropTail(nets, ssid);
      DropLooks(tail, ssid, other);
      ConsMap(n, tail);
      assert nets == [n] + tail;
      ConsMap(n, Drop(tail, ssid));
    }
  }

  lemma DropFinds(nets: seq<Net>, ssid: string)
    ensures ssid in AsMap(Drop(nets, ssid)) <==> Twice(nets, ssid)
  {
    hide AsMap;
    var i, r := Find(nets, ssid), Drop(nets, ssid);
    FindBound(nets, ssid);
    FindIsKey(r, ssid);
    FindFirst(nets, ssid);
    FindFirst(r, ssid);
    FindBound(r, ssid);
    if i < |nets| {
      assert forall k | 0 <= k < |r| :: r[k] == nets[if k < i then k else k + 1];
      if Twice(nets, ssid) {
        var j :| i < j < |nets| && nets[j].ssid == ssid;
        assert r[j - 1].ssid == ssid;
      }
    }
  }

  // A removal takes the name out of the map if and only if it was there once at most;
  // otherwise the next entry of that name comes to light.
  lemma DropExactly(nets: seq<Net>, ssid: string)
    ensures AsMap(Drop(nets, ssid)) == AsMap(nets) - {ssid} <==> !Twice(nets, ssid)
  {
    hide AsMap, Drop, Twice;
    DropFinds(nets, ssid);
    if !Twice(nets, ssid) {
      forall other ensures other in AsMap(Drop(nets, ssid)) <==> other in AsMap(nets) - {ssid} {
        DropLooks(nets, ssid, other);
      }
      forall other | other in AsMap(nets) - {ssid} ensures AsMap(Drop(nets, ssid))[other] == AsMap(nets)[other] {
        DropLooks(nets, ssid, other);
      }
    }
  }

  // An empty or missing file is the empty map.
  lemma EmptyLoads()
    ensures Load("") == [] && Table([]) && AsMap([]) == map[]
  {}
}
