// re_match (sdk/re/re.c), from the pattern to the answer: the compiled program runs
// on the class buffer the compiler left, and finds what the program as written
// would find unless a character strays out of a class.

module RegexMatch {
  import opened Wrappers
  import opened Text
  import opened Regex
  import opened RegexClass
  import opened RegexCompile
  import opened RegexEngine

  // re_match. The buffer keeps what earlier patterns left; `beyond` is the answer of
  // a class whose scan leaves the memory of the compiler.
  method ReMatch(c: Compiler, pattern: string, T: string, beyond: Accept)
    returns (pos: int, len: nat, ghost re: Prog)
    requires c.Valid() && Without(pattern, '\0')
    modifies c, c.classBuf
    ensures var P := Compile(pattern, 0, 0, 0);
      if P.None? then pos == -1
      else
        && re.nodes == P.value && re.starts == Starts(P.value, 0) && re.mem == c.Memory()
        && Placed(P.value, re.starts, re.mem)
        && Found(InMemory(re), P.value, T, pos, len)
        && (Keeps(P.value, T) || PlainDashes(pattern) ==> Found(AsWritten(P.value), P.value, T, pos, len))
  {
    hide PlainDashes, Starts, AllText, Found, InMemory, AsWritten, Keeps, AgreeOn, Placed, Compile, Stored, EmptyAtFull;
    re := Prog([], [], "", beyond);
    var prog, starts := c.ReCompile(pattern);
    if prog.None? { return -1, 0, re; }
    var compiled := Prog(prog.value, starts, c.classBuf[..] + c.behind, beyond);
    PlacedSizes(compiled);
    pos, len := ReMatchp(compiled, T);
    re := compiled;
    if PlainDashes(pattern) {
      CompileContained(pattern, 0, 0, 0);
      ContainedKeeps(prog.value, T);
    }
    if Keeps(prog.value, T) {
      MemoryIsWritten(compiled, T);
      FoundAgrees(InMemory(compiled), AsWritten(prog.value), prog.value, T, pos, len);
    }
  }

  lemma PlacedSizes(re: Prog)
    requires Placed(re.nodes, re.starts, re.mem)
    ensures |re.starts| == |re.nodes|
  {}

  // ----- A program that does not keep to its text ----------------------------------

  // [a-\\][xyz]: a range up to a backslash, and the second backslash of the pair.
  const RANGE := "a-\\\\"
  const XYZ := "xyz"
  const STRAY: seq<Node> := [Class(false, RANGE), Class(false, XYZ)]

  lemma RangeIs()
    ensures |RANGE| == 4 && RANGE[0] == 'a' && RANGE[1] == '-' && RANGE[2] == '\\' && RANGE[3] == '\\'
    ensures |XYZ| == 3 && XYZ[0] == 'x' && XYZ[1] == 'y' && XYZ[2] == 'z'
    ensures ClassText(RANGE) && ClassText(XYZ)
  {
    assert RANGE[1..][1..] == RANGE[2..] && RANGE[2..][2..] == "";
    assert XYZ[1..][1..] == XYZ[2..] && XYZ[2..][1..] == "";
  }

  // The compiler takes it, and leaves its bytes one behind the other.
  lemma StrayCompiles()
    ensures Compile(ShowAll(STRAY), 0, 0, 0) == Some(STRAY)
    ensures Stored(ShowAll(STRAY), 0, 0, 0) == (RANGE + "\0") + ((XYZ + "\0") + "")
  {
    hide Compile, Stored, ShowAll, AllText, Accepts, ClassText;
    RangeIs();
    TwoNodes(STRAY[0], STRAY[1]);
    CompileShown(STRAY);
  }

  lemma StrayLooks(mem: string)
    requires ClassAt(mem, 0, RANGE) && ClassAt(mem, 5, XYZ)
    ensures Look('x', mem, 0) == Hit && Look('x', mem, 5) == Hit
    ensures !ClassMatch('x', RANGE, 0) && Strays('x', RANGE, 0)
  {
    RangeIs();
    assert mem[0] == 'a' && mem[1] == '-' && mem[2] == '\\' && mem[3] == '\\' && mem[4] == '\0';
    assert mem[5] == 'x' && mem[6] == 'y';
    assert Look('x', mem, 3) == Look('x', mem, 5);
    assert !ClassMatch('x', RANGE, 3) && Strays('x', RANGE, 3);
  }

  // Alone, with nothing but a NUL behind it, the class does not take the backslash
  // that is written in it.
  lemma BackslashMissed(mem: string)
    requires ClassAt(mem, 0, RANGE) && |mem| > 5 && mem[5] == '\0'
    ensures ClassMatch('\\', RANGE, 0) && Look('\\', mem, 0) == Miss
  {
    RangeIs();
    assert mem[0] == 'a' && mem[1] == '-' && mem[2] == '\\' && mem[3] == '\\' && mem[4] == '\0';
    assert Look('\\', mem, 3) == Look('\\', mem, 5);
    assert ClassMatch('\\', RANGE, 3);
  }

  // On "xx" the program in memory finds both characters: the first class goes on into
  // the bytes of the second. As it is written, it finds nothing.
  lemma StrayFound(re: Prog)
    requires re.nodes == STRAY && re.starts == [0, 5] && Placed(re.nodes, re.starts, re.mem)
    ensures Found(InMemory(re), STRAY, "xx", 0, 2) && Found(AsWritten(STRAY), STRAY, "xx", -1, 0)
    ensures !Keeps(STRAY, "xx")
  {
    hide Look, ClassMatch, Strays, Placed;
    StrayPlaced(re);
    StrayLooks(re.mem);
    var acc := InMemory(re);
    assert acc(0, 'x') && acc(1, 'x');
    assert Lang(acc, STRAY, 2, "xx", 2, 2);
    assert Lang(acc, STRAY, 1, "xx", 1, 2);
    assert Lang(acc, STRAY, 0, "xx", 0, 2);
    assert !AsWritten(STRAY)(0, 'x');
    forall x: nat | x <= 2 ensures !Matches(AsWritten(STRAY), STRAY, 0, "xx", x) {}
    assert STRAY[0].Class? && "xx"[0] == 'x' && Strays("xx"[0], STRAY[0].cls, 0);
  }

  lemma StrayPlaced(re: Prog)
    requires re.nodes == STRAY && re.starts == [0, 5] && Placed(re.nodes, re.starts, re.mem)
    ensures ClassAt(re.mem, 0, RANGE) && ClassAt(re.mem, 5, XYZ)
  {
    assert re.nodes[0] == STRAY[0] && re.nodes[1] == STRAY[1];
  }

  lemma StrayStarts()
    ensures Starts(STRAY, 0) == [0, 5]
  {
    assert STRAY[1..] == [Class(false, XYZ)] && STRAY[1..][1..] == [];
    assert |Bytes(STRAY[0])| == 5;
    assert Starts(STRAY[1..], 5) == [5] + Starts([], 5 + |Bytes(STRAY[1])|);
  }

  // So it runs, whatever the buffer held before and whatever lies beyond it.
  method StrayMatches(c: Compiler, beyond: Accept) returns (pos: int, len: nat)
    requires c.Valid()
    modifies c, c.classBuf
    ensures pos == 0 && len == 2
  {
    hide Compile, Found, InMemory, AsWritten, Placed, Starts, ShowAll, Stored;
    StrayCompiles();
    StrayStarts();
    StrayClean();
    ghost var re;
    pos, len, re := ReMatch(c, ShowAll(STRAY), "xx", beyond);
    StrayFound(re);
    TwoAtoms(InMemory(re), "xx", pos, len);
  }

  lemma StrayClean()
    ensures Without(ShowAll(STRAY), '\0')
  {
    RangeIs();
    TwoNodes(STRAY[0], STRAY[1]);
    var a, b := Show(STRAY[0]), Show(STRAY[1]);
    assert a == ['['] + (RANGE + [']']) && b == ['['] + (XYZ + [']']);
    assert ShowAll(STRAY) == a + (b + "");
    assert Without(a, '\0') && Without(b, '\0');
  }

  // A search for two single atoms that can succeed at the start ends there.
  lemma TwoAtoms(acc: Accept, T: string, pos: int, len: nat)
    requires Found(acc, STRAY, T, pos, len) && Found(acc, STRAY, T, 0, 2)
    ensures pos == 0 && len == 2
  {
    assert Matches(acc, STRAY, 0, T, 0);
    assert ShapeAt(STRAY, 0) == ShapeAt(STRAY, 1) == Single && ShapeAt(STRAY, 2) == Done;
    assert pos == 0 && Lang(acc, STRAY, 0, T, 0, len);
    assert Lang(acc, STRAY, 1, T, 1, len);
    assert Lang(acc, STRAY, 2, T, 2, len);
  }
}
