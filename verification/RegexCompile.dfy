// The pattern compiler (sdk/re/re.c): which patterns compile and to what, every
// byte it stores of class texts, and exactly when those bytes leave the class buffer.

module RegexCompile {
  import opened Wrappers
  import opened Regex
  import opened RegexClass
  import opened Text

  const MAX_NODES := 96
  const MAX_CLASS_BUF := 192

  // ----- The compiler as functions of the pattern index ---------------------------

  // Where reading class text stopped, and whether at the closing bracket.
  datatype Scan = Scan(closed: bool, e: nat)

  // The text from `i` on, with `ci` bytes of the class buffer used. The room for a
  // byte is tested only when there is a byte to store.
  function ClassScan(p: string, i: nat, ci: nat): (r: Scan)
    requires i <= |p|
    ensures i <= r.e <= |p| && (r.closed ==> r.e < |p|)
    decreases |p| - i
  {
    if i == |p| then Scan(false, i)
    else if p[i] == ']' then Scan(true, i)
    else if p[i] == '\\' then
      if ci + 1 >= MAX_CLASS_BUF - 1 then Scan(false, i)
      else if i + 1 == |p| then Scan(false, i + 1)
      else ClassScan(p, i + 2, ci + 2)
    else if ci >= MAX_CLASS_BUF - 1 then Scan(false, i)
    else ClassScan(p, i + 1, ci + 1)
  }

  // One node read at `i` and the next index; or a refusal, and the class text
  // stored before it.
  datatype Item = Bad(left: string) | Item(node: Node, i: nat)

  predicate IsMeta(c: char) { c == 'd' || c == 'D' || c == 'w' || c == 'W' || c == 's' || c == 'S' }

  function ReadNode(p: string, i: nat, ci: nat): (r: Item)
    requires i < |p|
    ensures r.Item? ==> i < r.i <= |p|
  {
    var c := p[i];
    if c == '^' then Item(Begin, i + 1)
    else if c == '$' then Item(End, i + 1)
    else if c == '.' then Item(Dot, i + 1)
    else if c == '*' then Item(Star, i + 1)
    else if c == '+' then Item(Plus, i + 1)
    else if c == '?' then Item(Question, i + 1)
    else if c == '\\' then
      if i + 1 == |p| then Bad("")
      else Item(if IsMeta(p[i + 1]) then Meta(p[i + 1]) else Char(p[i + 1]), i + 2)
    else if c == '[' then ReadClass(p, i + 1, ci)
    else Item(Char(c), i + 1)
  }

  function ReadClass(p: string, i: nat, ci: nat): (r: Item)
    requires i <= |p|
    ensures r.Item? ==> i < r.i <= |p|
  {
    var neg := i < |p| && p[i] == '^';
    var k := if neg then i + 1 else i;
    var s := ClassScan(p, k, ci);
    if s.closed then Item(Class(neg, p[k..s.e]), s.e + 1) else Bad(p[k..s.e])
  }

  // What a node stores in the class buffer: its text and a NUL.
  function Bytes(n: Node): string {
    match n
    case Class(neg, cls) => cls + ['\0']
    case _ => ""
  }

  function Compile(p: string, i: nat, ni: nat, ci: nat): Option<seq<Node>>
    requires i <= |p|
    decreases |p| - i
  {
    if i == |p| then Some([])
    else if ni + 1 >= MAX_NODES then None
    else match ReadNode(p, i, ci)
      case Bad(_) => None
      case Item(node, i') =>
        match Compile(p, i', ni + 1, ci + |Bytes(node)|)
        case None => None
        case Some(rest) => Some([node] + rest)
  }

  // All bytes stored from here on, in order, refused patterns included.
  function Stored(p: string, i: nat, ni: nat, ci: nat): string
    requires i <= |p|
    decreases |p| - i
  {
    if i == |p| || ni + 1 >= MAX_NODES then ""
    else match ReadNode(p, i, ci)
      case Bad(left) => left
      case Item(node, i') => Bytes(node) + Stored(p, i', ni + 1, ci + |Bytes(node)|)
  }

  // A compiled program never has more nodes than the array holds.
  lemma {:induction false} CompileFits(p: string, i: nat, ni: nat, ci: nat)
    requires i <= |p|
    ensures Compile(p, i, ni, ci).Some? && ni < MAX_NODES ==> ni + |Compile(p, i, ni, ci).value| < MAX_NODES
    decreases |p| - i
  {
    hide ReadNode, Bytes;
    if i < |p| && ni + 1 < MAX_NODES && ReadNode(p, i, ci).Item? {
      var r := ReadNode(p, i, ci);
      CompileFits(p, r.i, ni + 1, ci + |Bytes(r.node)|);
    }
  }

  // ----- The class buffer --------------------------------------------------------------

  // An empty class is read with the buffer full: its NUL goes behind the buffer.
  predicate EmptyAtFull(p: string, i: nat, ni: nat, ci: nat)
    requires i <= |p|
    decreases |p| - i
  {
    && i < |p| && ni + 1 < MAX_NODES
    && match ReadNode(p, i, ci)
      case Bad(_) => false
      case Item(node, i') =>
        || (ci >= MAX_CLASS_BUF && node.Class? && node.cls == "")
        || EmptyAtFull(p, i', ni + 1, ci + |Bytes(node)|)
  }

  // Class text that is not empty leaves room for its NUL.
  lemma {:induction false} ScanRoom(p: string, i: nat, ci: nat)
    requires i <= |p|
    ensures var e := ClassScan(p, i, ci).e; e > i ==> ci + (e - i) < MAX_CLASS_BUF
    decreases |p| - i
  {
    if i < |p| && p[i] != ']' {
      if p[i] == '\\' {
        if ci + 1 < MAX_CLASS_BUF - 1 && i + 1 < |p| { ScanRoom(p, i + 2, ci + 2); }
      } else if ci < MAX_CLASS_BUF - 1 {
        ScanRoom(p, i + 1, ci + 1);
      }
    }
  }

  lemma NodeRoom(p: string, i: nat, ci: nat)
    requires i < |p|
    ensures match ReadNode(p, i, ci)
      case Bad(left) => left != "" ==> ci + |left| < MAX_CLASS_BUF
      case Item(n, _) => n.Class? && n.cls != "" ==> ci + |n.cls| < MAX_CLASS_BUF
  {
    if p[i] == '[' {
      ScanRoom(p, i + 1, ci);
      if i + 1 < |p| { ScanRoom(p, i + 2, ci); }
    }
  }

  // The stored bytes stay in the buffer if and only if no empty class is read with
  // the buffer full.
  lemma {:induction false} StoredFits(p: string, i: nat, ni: nat, ci: nat)
    requires i <= |p| && ci <= MAX_CLASS_BUF
    ensures ci + |Stored(p, i, ni, ci)| <= MAX_CLASS_BUF <==> !EmptyAtFull(p, i, ni, ci)
    decreases |p| - i
  {
    hide ReadNode;
    if i < |p| && ni + 1 < MAX_NODES {
      NodeRoom(p, i, ci);
      var r := ReadNode(p, i, ci);
      if r.Item? && ci + |Bytes(r.node)| <= MAX_CLASS_BUF {
        StoredFits(p, r.i, ni + 1, ci + |Bytes(r.node)|);
      }
    }
  }

  // ----- The classes of a pattern ------------------------------------------------------

  lemma {:induction false} ScanIsText(p: string, i: nat, ci: nat)
    requires i <= |p|
    ensures var s := ClassScan(p, i, ci); s.closed ==> ClassText(p[i..s.e])
    decreases |p| - i
  {
    var s := ClassScan(p, i, ci);
    if s.closed && i < s.e {
      var t := p[i..s.e];
      assert t[0] == p[i];
      if p[i] == '\\' {
        ScanIsText(p, i + 2, ci + 2);
        assert t[2..] == p[i + 2..s.e];
      } else {
        ScanIsText(p, i + 1, ci + 1);
        assert t[1..] == p[i + 1..s.e];
      }
    }
  }

  // No dash stands in front of a backslash.
  predicate PlainDashes(p: string) { forall k | 0 <= k < |p| - 1 :: !(p[k] == '-' && p[k + 1] == '\\') }

  lemma ReadContained(p: string, i: nat, ci: nat)
    requires i < |p| && PlainDashes(p)
    ensures var r := ReadNode(p, i, ci); r.Item? && r.node.Class? ==> Contained(r.node.cls, 0)
  {
    hide ClassScan, ClassText, Contained, PlainDashes;
    if p[i] == '[' {
      var k := if i + 1 < |p| && p[i + 1] == '^' then i + 2 else i + 1;
      var s := ClassScan(p, k, ci);
      ScanIsText(p, k, ci);
      if s.closed {
        var cls := p[k..s.e];
        DashesWithin(p, k, s.e);
        assert cls[0..] == cls;
        NoBackslashRange(cls, 0);
      }
    }
  }

  lemma DashesWithin(p: string, a: nat, b: nat)
    requires a <= b <= |p| && PlainDashes(p)
    ensures PlainDashes(p[a..b])
    ensures forall k | 0 <= k < |p[a..b]| - 1 :: !(p[a..b][k] == '-' && p[a..b][k + 1] == '\\')
  {
    forall k | 0 <= k < b - a - 1 ensures !(p[a..b][k] == '-' && p[a..b][k + 1] == '\\') {
      assert p[a..b][k] == p[a + k] && p[a..b][k + 1] == p[a + k + 1];
    }
  }

  // Then every class of the program keeps to its text.
  lemma {:induction false} CompileContained(p: string, i: nat, ni: nat, ci: nat)
    requires i <= |p| && PlainDashes(p)
    ensures var r := Compile(p, i, ni, ci); r.Some? ==> AllContained(r.value)
    decreases |p| - i
  {
    hide ReadNode, Bytes, Contained, PlainDashes;
    if i < |p| && ni + 1 < MAX_NODES && ReadNode(p, i, ci).Item? {
      var r := ReadNode(p, i, ci);
      ReadContained(p, i, ci);
      CompileContained(p, r.i, ni + 1, ci + |Bytes(r.node)|);
    }
  }

  // ----- Writing programs as patterns ----------------------------------------------

  predicate Special(c: char) {
    c == '^' || c == '$' || c == '.' || c == '*' || c == '+' || c == '?' || c == '\\' || c == '['
  }

  predicate Writable(n: Node) {
    match n
    case Meta(m) => IsMeta(m)
    case Class(neg, cls) => ClassText(cls) && (neg || cls == [] || cls[0] != '^')
    case _ => true
  }

  function Show(n: Node): (s: string)
    ensures |s| >= 1
  {
    match n
    case Dot => "."
    case Begin => "^"
    case End => "$"
    case Question => "?"
    case Star => "*"
    case Plus => "+"
    case Char(c) => if Special(c) then ['\\', c] else [c]
    case Meta(m) => ['\\', m]
    case Class(neg, cls) => if neg then ['[', '^'] + (cls + [']']) else ['['] + (cls + [']'])
  }

  function ShowAll(P: seq<Node>): string {
    if P == [] then "" else Show(P[0]) + ShowAll(P[1..])
  }

  // Everything the nodes of a program store.
  function AllText(P: seq<Node>): string {
    if P == [] then "" else Bytes(P[0]) + AllText(P[1..])
  }

  // A class is accepted if it is empty or its text ends before the last byte.
  predicate Room(n: Node, ci: nat) { n.Class? && n.cls != "" ==> ci + |n.cls| < MAX_CLASS_BUF }

  predicate Accepts(P: seq<Node>, ci: nat) {
    P == [] || (Room(P[0], ci) && Accepts(P[1..], ci + |Bytes(P[0])|))
  }

  lemma {:induction false} ScanClassText(p: string, i: nat, ci: nat, t: string)
    requires ClassText(t) && At(p, i, t + [']'])
    ensures if t == "" || ci + |t| < MAX_CLASS_BUF then ClassScan(p, i, ci) == Scan(true, i + |t|)
            else !ClassScan(p, i, ci).closed
    decreases |t|
  {
    if t == [] {
      AtOne(p, i, ']');
    } else if t[0] == '\\' {
      assert t + [']'] == [t[0], t[1]] + (t[2..] + [']']);
      AtSplit(p, i, [t[0], t[1]], t[2..] + [']']);
      AtIndex(p, i, t + [']'], 0);
      ScanClassText(p, i + 2, ci + 2, t[2..]);
    } else {
      assert t + [']'] == [t[0]] + (t[1..] + [']']);
      AtSplit(p, i, [t[0]], t[1..] + [']']);
      AtIndex(p, i, t + [']'], 0);
      ScanClassText(p, i + 1, ci + 1, t[1..]);
    }
  }

  lemma ReadShownClass(p: string, i: nat, ci: nat, neg: bool, cls: string)
    requires Writable(Class(neg, cls)) && At(p, i, Show(Class(neg, cls)))
    ensures i < |p|
    ensures var n := Class(neg, cls);
      if Room(n, ci) then ReadNode(p, i, ci) == Item(n, i + |Show(n)|) else ReadNode(p, i, ci).Bad?
  {
    AtIndex(p, i, Show(Class(neg, cls)), 0);
    var k := if neg then i + 2 else i + 1;
    if neg {
      AtSplit(p, i, ['[', '^'], cls + [']']);
      AtIndex(p, i, ['[', '^'], 1);
    } else {
      AtSplit(p, i, ['['], cls + [']']);
      AtIndex(p, i + 1, cls + [']'], 0);
    }
    ScanClassText(p, k, ci, cls);
    AtSplit(p, k, cls, [']']);
    AtFits(p, k, cls);
  }

  // Each node is read back from its own spelling, or refused for want of room.
  lemma ReadShown(p: string, i: nat, ci: nat, n: Node)
    requires Writable(n) && At(p, i, Show(n))
    ensures i < |p|
    ensures if Room(n, ci) then ReadNode(p, i, ci) == Item(n, i + |Show(n)|) else ReadNode(p, i, ci).Bad?
  {
    AtIndex(p, i, Show(n), 0);
    match n
    case Class(neg, cls) => ReadShownClass(p, i, ci, neg, cls);
    case Meta(m) => AtIndex(p, i, Show(n), 1);
    case Char(c) => if Special(c) { AtIndex(p, i, Show(n), 1); }
    case _ =>
  }

  lemma {:induction false} CompileShownAt(p: string, i: nat, ni: nat, ci: nat, P: seq<Node>)
    requires forall k | 0 <= k < |P| :: Writable(P[k])
    requires At(p, i, ShowAll(P)) && i + |ShowAll(P)| == |p|
    ensures var fits := (ni + |P| < MAX_NODES || P == []) && Accepts(P, ci);
      && Compile(p, i, ni, ci) == (if fits then Some(P) else None)
      && (fits ==> Stored(p, i, ni, ci) == AllText(P))
    decreases |P|
  {
    hide ReadNode, Show, At, Writable, Bytes, Room;
    if P != [] {
      AtSplit(p, i, Show(P[0]), ShowAll(P[1..]));
      ReadShown(p, i, ci, P[0]);
      CompileShownAt(p, i + |Show(P[0])|, ni + 1, ci + |Bytes(P[0])|, P[1..]);
      assert [P[0]] + P[1..] == P;
    }
  }

  // Writing a program and compiling the text gives the program back, with the texts
  // of its classes stored one behind the other. It is refused, as a whole, exactly if
  // it has too many nodes or a class that is not empty does not fit.
  lemma CompileShown(P: seq<Node>)
    requires forall k | 0 <= k < |P| :: Writable(P[k])
    ensures var p, fits := ShowAll(P), |P| < MAX_NODES && Accepts(P, 0);
      && Compile(p, 0, 0, 0) == (if fits then Some(P) else None)
      && (fits ==> Stored(p, 0, 0, 0) == AllText(P))
  {
    hide ShowAll, Show, Accepts, Writable, Compile, Stored, At, AllText;
    var p := ShowAll(P);
    assert [] + p + [] == p;
    AtHere([], p, []);
    CompileShownAt(p, 0, 0, 0, P);
    if P == [] { NoneAccepted(); }
  }

  lemma NoneAccepted()
    ensures Accepts([], 0)
  {}

  // Where the k-th node of the program has an empty class behind a full buffer.
  predicate OverrunAt(P: seq<Node>, k: nat, ci: nat)
    requires k < |P|
  {
    P[k].Class? && P[k].cls == "" && ci + |AllText(P[..k])| >= MAX_CLASS_BUF
  }

  lemma {:induction false} AcceptedOverrun(P: seq<Node>, ci: nat)
    requires Accepts(P, ci) && ci <= MAX_CLASS_BUF
    ensures ci + |AllText(P)| > MAX_CLASS_BUF <==> exists k | 0 <= k < |P| :: OverrunAt(P, k, ci)
    decreases |P|
  {
    if P != [] {
      var ci', tail := ci + |Bytes(P[0])|, P[1..];
      assert OverrunAt(P, 0, ci) <==> P[0].Class? && P[0].cls == "" && ci >= MAX_CLASS_BUF;
      forall k | 0 < k < |P| ensures OverrunAt(P, k, ci) <==> OverrunAt(tail, k - 1, ci') {
        assert P[..k][1..] == tail[..k - 1];
      }
      if ci' <= MAX_CLASS_BUF {
        AcceptedOverrun(tail, ci');
        if k :| 0 <= k < |tail| && OverrunAt(tail, k, ci') { assert OverrunAt(P, k + 1, ci); }
      } else {
        assert OverrunAt(P, 0, ci);
      }
    }
  }

  // A program that compiles from its own spelling stores bytes behind the class
  // buffer if and only if it has an empty class with 192 bytes or more before it.
  lemma OverrunExactly(P: seq<Node>)
    requires (forall k | 0 <= k < |P| :: Writable(P[k])) && |P| < MAX_NODES && Accepts(P, 0)
    ensures |Stored(ShowAll(P), 0, 0, 0)| > MAX_CLASS_BUF <==> exists k | 0 <= k < |P| :: OverrunAt(P, k, 0)
  {
    CompileShown(P);
    AcceptedOverrun(P, 0);
  }

  // Such a pattern: a class of 191 characters, which fills the buffer, and an empty
  // one. It compiles, and its last NUL is byte 193 of a buffer of 192.
  lemma OverrunHappens(t: string)
    requires ClassText(t) && |t| == 191 && t[0] != '^'
    ensures var p := ['['] + (t + [']']) + ("[]" + "");
      && Compile(p, 0, 0, 0) == Some([Class(false, t), Class(false, "")])
      && |Stored(p, 0, 0, 0)| == 193 == MAX_CLASS_BUF + 1
  {
    hide ClassText, Compile, Stored, ShowAll, AllText, Accepts;
    var full, empty := Class(false, t), Class(false, "");
    EmptyText();
    TwoNodes(full, empty);
    assert Show(empty) == "[]" && Bytes(empty) == ['\0'];
    CompileShown([full, empty]);
  }

  lemma TwoNodes(a: Node, b: Node)
    ensures ShowAll([a, b]) == Show(a) + (Show(b) + "") && AllText([a, b]) == Bytes(a) + (Bytes(b) + "")
    ensures Accepts([a, b], 0) <==> Room(a, 0) && Room(b, |Bytes(a)|)
  {
    hide Show, Bytes, Room;
    assert [a, b][1..] == [b] && [b][1..] == [];
    assert ShowAll([b]) == Show(b) + "" && AllText([b]) == Bytes(b) + "";
    assert Accepts([b], |Bytes(a)|) == Room(b, |Bytes(a)|);
  }

  lemma EmptyText()
    ensures ClassText("")
  {}

  // ----- The compiler with its loops and its buffer ------------------------------------

  // The class buffer, and what is stored behind it.
  class Compiler {
    const classBuf: array<char>
    var behind: seq<char>

    ghost predicate Valid() { classBuf.Length == MAX_CLASS_BUF }

    // Memory from the start of the buffer on.
    ghost function Memory(): seq<char>
      reads this, classBuf
    {
      classBuf[..] + behind
    }

    // `bytes` are stored, and nothing behind the buffer but what does not fit.
    ghost predicate Holds(bytes: string)
      requires Valid()
      reads this, classBuf
    {
      && |behind| == (if |bytes| > MAX_CLASS_BUF then |bytes| - MAX_CLASS_BUF else 0)
      && bytes <= Memory()
    }

    constructor ()
      ensures Valid() && Holds("") && fresh(classBuf)
    {
      classBuf := new char[MAX_CLASS_BUF](i => '\0');
      behind := [];
    }

    // s_classbuf[ci++] = c.
    method Put(ci: nat, c: char, ghost bytes: string)
      requires Valid() && Holds(bytes) && ci == |bytes|
      modifies this, classBuf
      ensures Holds(bytes + [c])
    {
      ghost var m := Memory();
      if ci < MAX_CLASS_BUF {
        classBuf[ci] := c;
        assert Memory() == m[ci := c];
      } else {
        behind := behind + [c];
        assert Memory() == m + [c];
      }
    }

    // The inner loop over class text.
    method ScanClass(p: string, i: nat, ci: nat, ghost bytes: string) returns (ok: bool, e: nat, ci': nat)
      requires Valid() && Holds(bytes) && ci == |bytes| && i <= |p|
      modifies this, classBuf
      ensures ClassScan(p, i, ci) == Scan(ok, e) && ci' == ci + (e - i)
      ensures i <= e <= |p| && Holds(bytes + p[i..e])
    {
      hide Holds;
      e, ci' := i, ci;
      assert bytes + p[i..e] == bytes;
      while e < |p| && p[e] != ']'
        invariant i <= e <= |p| && ci' == ci + (e - i)
        invariant ClassScan(p, e, ci') == ClassScan(p, i, ci) && Holds(bytes + p[i..e])
        decreases |p| - e
      {
        if p[e] == '\\' {
          if ci' + 1 >= MAX_CLASS_BUF - 1 { return false, e, ci'; }
          OneMore(bytes, p, i, e);
          Put(ci', p[e], bytes + p[i..e]);
          e, ci' := e + 1, ci' + 1;
          if ci' >= MAX_CLASS_BUF - 1 || e == |p| { return false, e, ci'; }
        } else if ci' >= MAX_CLASS_BUF - 1 {
          return false, e, ci';
        }
        OneMore(bytes, p, i, e);
        Put(ci', p[e], bytes + p[i..e]);
        e, ci' := e + 1, ci' + 1;
      }
      ok := e < |p|;
    }

    // One turn of the switch.
    method ReadOne(p: string, start: nat, ci: nat, ghost bytes: string)
      returns (ok: bool, node: Node, i: nat, ci': nat)
      requires Valid() && Holds(bytes) && ci == |bytes| && start < |p|
      modifies this, classBuf
      ensures match ReadNode(p, start, ci)
        case Bad(left) => !ok && Holds(bytes + left)
        case Item(n, next) => ok && node == n && i == next && ci' == ci + |Bytes(n)| && Holds(bytes + Bytes(n))
    {
      hide Holds;
      ok, ci', i := true, ci, start + 1;
      var c := p[start];
      node := Char(c);
      assert bytes + "" == bytes;
      if c == '^' { node := Begin; }
      else if c == '$' { node := End; }
      else if c == '.' { node := Dot; }
      else if c == '*' { node := Star; }
      else if c == '+' { node := Plus; }
      else if c == '?' { node := Question; }
      else if c == '\\' {
        if i == |p| { ok := false; return; }
        node := if IsMeta(p[i]) then Meta(p[i]) else Char(p[i]);
        i := i + 1;
      }
      else if c == '[' {
        var neg := i < |p| && p[i] == '^';
        if neg { i := i + 1; }
        var closed, e, used := ScanClass(p, i, ci, bytes);
        if !closed { ok := false; return; }
        node := Class(neg, p[i..e]);
        Put(used, '\0', bytes + p[i..e]);
        assert bytes + p[i..e] + ['\0'] == bytes + (p[i..e] + ['\0']);
        i, ci' := e + 1, used + 1;
      }
    }

    // re_compile: the program, where each class begins, and every byte stored on the
    // way, whether the pattern compiles or is refused. A pattern holds no NUL.
    method ReCompile(p: string) returns (prog: Option<seq<Node>>, starts: seq<nat>)
      requires Valid()
      modifies this, classBuf
      ensures prog == Compile(p, 0, 0, 0)
      ensures prog.Some? ==> |prog.value| < MAX_NODES
      ensures Holds(Stored(p, 0, 0, 0))
      ensures behind == [] <==> !EmptyAtFull(p, 0, 0, 0)
      ensures prog.Some? ==> starts == Starts(prog.value, 0) && Stored(p, 0, 0, 0) == AllText(prog.value)
      ensures prog.Some? && Without(p, '\0') ==> Placed(prog.value, starts, Memory())
    {
      hide Starts, AllText, ReadNode, Holds, EmptyAtFull, Bytes, Reaches, Compile, Stored, Placed, Without;
      CompileFits(p, 0, 0, 0);
      StoredFits(p, 0, 0, 0);
      behind := [];
      var nodes: seq<Node> := [];
      starts := [];
      var i, ci := 0, 0;
      ghost var bytes := "";
      ReachStart(p);
      PlacedNone();
      NoText();
      HoldsNone();
      while i < |p| && |nodes| + 1 < MAX_NODES
        invariant i <= |p| && |nodes| < MAX_NODES && ci == |bytes| && Holds(bytes)
        invariant Reaches(p, nodes, i, bytes)
        invariant bytes == AllText(nodes) && starts == Starts(nodes, 0)
        invariant Without(p, '\0') ==> Placed(nodes, starts, bytes)
        decreases |p| - i
      {
        ReachStep(p, nodes, i, bytes);
        var ok, node, i', ci' := ReadOne(p, i, ci, bytes);
        if !ok { HoldsAll(Stored(p, 0, 0, 0)); return None, []; }
        if Without(p, '\0') { ReadClean(p, i, ci); PlacedMore(nodes, starts, bytes, node); }
        MoreNodes(nodes, node, 0);
        nodes, starts := nodes + [node], starts + [ci];
        i, ci, bytes := i', ci', bytes + Bytes(node);
      }
      ReachEnd(p, nodes, i, bytes);
      HoldsAll(bytes);
      if Without(p, '\0') { PlacedWithin(nodes, starts, bytes, Memory()); }
      if i < |p| { return None, []; }
      prog := Some(nodes);
    }

    lemma HoldsNone()
      requires Valid() && behind == []
      ensures Holds("")
    {}

    lemma HoldsAll(bytes: string)
      requires Valid() && Holds(bytes)
      ensures (behind == [] <==> |bytes| <= MAX_CLASS_BUF) && bytes <= Memory()
    {}
  }

  // Where the text of each node begins.
  function Starts(P: seq<Node>, ci: nat): seq<nat> {
    if P == [] then [] else [ci] + Starts(P[1..], ci + |Bytes(P[0])|)
  }

  lemma NoText()
    ensures AllText([]) == "" && Starts([], 0) == []
  {}

  lemma {:induction false} MoreNodes(P: seq<Node>, n: Node, ci: nat)
    ensures AllText(P + [n]) == AllText(P) + Bytes(n)
    ensures Starts(P + [n], ci) == Starts(P, ci) + [ci + |AllText(P)|]
    decreases |P|
  {
    hide Bytes;
    if P == [] {
      assert [] + [n] == [n] && [n][1..] == [];
    } else {
      assert (P + [n])[1..] == P[1..] + [n];
      MoreNodes(P[1..], n, ci + |Bytes(P[0])|);
    }
  }

  predicate NoNul(n: Node) { n.Class? ==> Without(n.cls, '\0') }

  lemma PlacedNone()
    ensures Placed([], [], "")
  {}

  lemma PlacedMore(nodes: seq<Node>, starts: seq<nat>, bytes: string, node: Node)
    requires Placed(nodes, starts, bytes) && NoNul(node)
    ensures Placed(nodes + [node], starts + [|bytes|], bytes + Bytes(node))
  {
    PlacedWithin(nodes, starts, bytes, bytes + Bytes(node));
  }

  lemma PlacedWithin(nodes: seq<Node>, starts: seq<nat>, bytes: string, mem: string)
    requires Placed(nodes, starts, bytes) && bytes <= mem
    ensures Placed(nodes, starts, mem)
  {}

  lemma ReadClean(p: string, i: nat, ci: nat)
    requires i < |p| && Without(p, '\0')
    ensures var r := ReadNode(p, i, ci); r.Item? ==> NoNul(r.node)
  {}

  // The rest of a program behind nodes already read.
  function Behind(nodes: seq<Node>, rest: Option<seq<Node>>): Option<seq<Node>> {
    if rest.Some? then Some(nodes + rest.value) else None
  }

  // With `nodes` read up to `i` and `bytes` stored, the rest decides what comes of it.
  ghost predicate Reaches(p: string, nodes: seq<Node>, i: nat, bytes: string) {
    && i <= |p| && Stored(p, 0, 0, 0) == bytes + Stored(p, i, |nodes|, |bytes|)
    && Compile(p, 0, 0, 0) == Behind(nodes, Compile(p, i, |nodes|, |bytes|))
  }

  lemma ReachStart(p: string)
    ensures Reaches(p, [], 0, "")
  {
    var rest := Compile(p, 0, 0, 0);
    assert rest.Some? ==> [] + rest.value == rest.value;
    assert "" + Stored(p, 0, 0, 0) == Stored(p, 0, 0, 0);
  }

  lemma ReachStep(p: string, nodes: seq<Node>, i: nat, bytes: string)
    requires Reaches(p, nodes, i, bytes) && i < |p| && |nodes| + 1 < MAX_NODES
    ensures var r := ReadNode(p, i, |bytes|);
      if r.Bad? then Compile(p, 0, 0, 0) == None && Stored(p, 0, 0, 0) == bytes + r.left
      else Reaches(p, nodes + [r.node], r.i, bytes + Bytes(r.node))
  {
    hide ReadNode, Bytes, Compile, Stored, Behind;
    var r, ni, ci := ReadNode(p, i, |bytes|), |nodes|, |bytes|;
    CompileStep(p, i, ni, ci);
    if r.Bad? {
      NothingBehind(nodes);
    } else {
      MoreBehind(nodes, r.node, Compile(p, r.i, ni + 1, ci + |Bytes(r.node)|));
      MoreText(bytes, Bytes(r.node), Stored(p, r.i, ni + 1, ci + |Bytes(r.node)|));
    }
  }

  // One turn of the loop, of both functions.
  lemma CompileStep(p: string, i: nat, ni: nat, ci: nat)
    requires i < |p| && ni + 1 < MAX_NODES
    ensures var r := ReadNode(p, i, ci);
      if r.Bad? then Compile(p, i, ni, ci) == None && Stored(p, i, ni, ci) == r.left
      else
        && Compile(p, i, ni, ci) == Behind([r.node], Compile(p, r.i, ni + 1, ci + |Bytes(r.node)|))
        && Stored(p, i, ni, ci) == Bytes(r.node) + Stored(p, r.i, ni + 1, ci + |Bytes(r.node)|)
  {
    hide ReadNode, Bytes;
  }

  lemma NothingBehind(nodes: seq<Node>)
    ensures Behind(nodes, None) == None
  {}

  lemma MoreBehind(nodes: seq<Node>, node: Node, rest: Option<seq<Node>>)
    ensures Behind(nodes, Behind([node], rest)) == Behind(nodes + [node], rest)
  {
    if rest.Some? {
      assert nodes + ([node] + rest.value) == nodes + [node] + rest.value;
    }
  }

  lemma MoreText(a: string, b: string, c: string)
    ensures a + (b + c) == (a + b) + c && |a + b| == |a| + |b|
  {}

  lemma ReachEnd(p: string, nodes: seq<Node>, i: nat, bytes: string)
    requires Reaches(p, nodes, i, bytes) && (i == |p| || |nodes| + 1 >= MAX_NODES)
    ensures Stored(p, 0, 0, 0) == bytes
    ensures Compile(p, 0, 0, 0) == if i < |p| then None else Some(nodes)
  {
    assert nodes + [] == nodes && bytes + "" == bytes;
  }

  lemma OneMore(bytes: string, p: string, i: nat, e: nat)
    requires i <= e < |p|
    ensures bytes + p[i..e] + [p[e]] == bytes + p[i..e + 1]
  {}
}
