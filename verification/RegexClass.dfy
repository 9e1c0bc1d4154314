// What class_match (sdk/re/re.c) makes of the bytes of a class. It reads memory from
// the class on; a backslash in front of the NUL takes it past the NUL, into the bytes
// of the next class and whatever else is there.

module RegexClass {
  import opened Regex

  // ----- Reading a class from memory ------------------------------------------------

  // The character is accepted, or not, or the scan leaves the memory at hand.
  datatype Answer = Hit | Miss | Off

  // class_match: the bytes of `mem` from `i` on.
  function Look(c: char, mem: string, i: nat): Answer
    decreases |mem| - i
  {
    if i >= |mem| then Off
    else if mem[i] == '\0' then Miss
    else if i + 1 >= |mem| then Off
    else if mem[i] == '\\' then if MetaMatch(c, mem[i + 1]) then Hit else Look(c, mem, i + 2)
    else if mem[i + 1] == '-' && i + 2 >= |mem| then Off
    else if mem[i + 1] == '-' && mem[i + 2] != '\0' then
      if mem[i] <= c <= mem[i + 2] then Hit else Look(c, mem, i + 3)
    else if c == mem[i] then Hit else Look(c, mem, i + 1)
  }

  // The bytes of a class: its text, which holds no NUL, and a NUL.
  ghost predicate ClassAt(mem: string, p: nat, cls: string) {
    && p + |cls| < |mem| && mem[p + |cls|] == '\0'
    && forall k | 0 <= k < |cls| :: mem[p + k] == cls[k] && cls[k] != '\0'
  }

  // Nothing before the last backslash of the text takes the character, and that
  // backslash stands alone.
  predicate Strays(c: char, cls: string, i: nat)
    decreases |cls| - i
  {
    if i >= |cls| then false
    else if cls[i] == '\\' then i + 1 == |cls| || (!MetaMatch(c, cls[i + 1]) && Strays(c, cls, i + 2))
    else if i + 2 < |cls| && cls[i + 1] == '-' then !(cls[i] <= c <= cls[i + 2]) && Strays(c, cls, i + 3)
    else c != cls[i] && Strays(c, cls, i + 1)
  }

  // A character that does not stray is judged by the text of the class alone.
  lemma {:induction false} LookIsMatch(c: char, mem: string, p: nat, cls: string, i: nat)
    requires ClassAt(mem, p, cls) && i <= |cls| && !Strays(c, cls, i)
    ensures Look(c, mem, p + i) == if ClassMatch(c, cls, i) then Hit else Miss
    decreases |cls| - i
  {
    hide MetaMatch;
    if i < |cls| {
      assert mem[p + i] == cls[i];
      if i + 1 < |cls| { assert mem[p + i + 1] == cls[i + 1]; }
      if i + 2 < |cls| { assert mem[p + i + 2] == cls[i + 2]; }
      if cls[i] == '\\' {
        if !MetaMatch(c, cls[i + 1]) { LookIsMatch(c, mem, p, cls, i + 2); }
      } else if i + 2 < |cls| && cls[i + 1] == '-' {
        if !(cls[i] <= c <= cls[i + 2]) { LookIsMatch(c, mem, p, cls, i + 3); }
      } else if c != cls[i] {
        LookIsMatch(c, mem, p, cls, i + 1);
      }
    }
  }

  // One that strays is judged by the bytes behind the NUL.
  lemma {:induction false} LookStrays(c: char, mem: string, p: nat, cls: string, i: nat)
    requires ClassAt(mem, p, cls) && Strays(c, cls, i) && c != '\0'
    ensures Look(c, mem, p + i) == Look(c, mem, p + |cls| + 1)
    decreases |cls| - i
  {
    assert mem[p + i] == cls[i];
    if i + 1 < |cls| { assert mem[p + i + 1] == cls[i + 1]; }
    if i + 2 < |cls| { assert mem[p + i + 2] == cls[i + 2]; }
    if cls[i] == '\\' {
      if i + 1 < |cls| { LookStrays(c, mem, p, cls, i + 2); }
    } else if i + 2 < |cls| && cls[i + 1] == '-' {
      LookStrays(c, mem, p, cls, i + 3);
    } else {
      LookStrays(c, mem, p, cls, i + 1);
    }
  }

  // Whatever stands behind the class, the answer is the same.
  ghost predicate Settled(c: char, cls: string, answer: Answer) {
    forall mem, p: nat | ClassAt(mem, p, cls) :: Look(c, mem, p) == answer
  }

  // So the text decides on a character if and only if the character does not stray;
  // and then it decides as the class is written.
  lemma SettledExactly(c: char, cls: string)
    requires c != '\0' && forall k | 0 <= k < |cls| :: cls[k] != '\0'
    ensures (exists answer :: Settled(c, cls, answer)) <==> !Strays(c, cls, 0)
    ensures !Strays(c, cls, 0) ==> Settled(c, cls, if ClassMatch(c, cls, 0) then Hit else Miss)
  {
    hide MetaMatch, Look, Strays;
    if Strays(c, cls, 0) {
      var none, some := cls + "\0" + "\0", cls + "\0" + Alone(c);
      assert ClassAt(none, 0, cls) && ClassAt(some, 0, cls);
      LookStrays(c, none, 0, cls, 0);
      LookStrays(c, some, 0, cls, 0);
      BytesBehind(c, cls);
    } else {
      var answer := if ClassMatch(c, cls, 0) then Hit else Miss;
      forall mem, p: nat | ClassAt(mem, p, cls) ensures Look(c, mem, p) == answer {
        LookIsMatch(c, mem, p, cls, 0);
      }
      assert Settled(c, cls, answer);
    }
  }

  // A class that takes the character and no other.
  function Alone(c: char): string { if c == '\\' then "\\\\\0" else [c, '\0'] }

  lemma BytesBehind(c: char, cls: string)
    requires c != '\0'
    ensures Look(c, cls + "\0" + "\0", |cls| + 1) == Miss && Look(c, cls + "\0" + Alone(c), |cls| + 1) == Hit
  {
    hide Look, MetaMatch, Alone;
    var n := |cls| + 1;
    var none, some := cls + "\0" + "\0", cls + "\0" + Alone(c);
    assert none[n] == '\0';
    LookNone(c, none, n);
    AloneIs(c);
    assert some[n] == Alone(c)[0] && some[n + 1] == Alone(c)[1];
    LookAlone(c, some, n);
  }

  lemma AloneIs(c: char)
    ensures |Alone(c)| >= 2 && Alone(c)[0] == c && Alone(c)[1] == if c == '\\' then '\\' else '\0'
  {}

  lemma LookNone(c: char, mem: string, n: nat)
    requires n < |mem| && mem[n] == '\0'
    ensures Look(c, mem, n) == Miss
  {}

  lemma LookAlone(c: char, mem: string, n: nat)
    requires c != '\0' && n + 1 < |mem| && mem[n] == c && mem[n + 1] == if c == '\\' then '\\' else '\0'
    ensures Look(c, mem, n) == Hit
  {}

  // ----- Classes that keep to their text ----------------------------------------------

  // Whole escape pairs, and no bare `]`: what the compiler stores.
  predicate ClassText(t: string) {
    if t == [] then true
    else if t[0] == ']' then false
    else if t[0] == '\\' then |t| >= 2 && ClassText(t[2..])
    else ClassText(t[1..])
  }

  // The scan never comes upon a backslash that ends the text.
  predicate Contained(cls: string, i: nat)
    decreases |cls| - i
  {
    if i >= |cls| then true
    else if cls[i] == '\\' then i + 1 < |cls| && Contained(cls, i + 2)
    else if i + 2 < |cls| && cls[i + 1] == '-' then Contained(cls, i + 3)
    else Contained(cls, i + 1)
  }

  lemma {:induction false} ContainedNever(c: char, cls: string, i: nat)
    requires Contained(cls, i)
    ensures !Strays(c, cls, i)
    decreases |cls| - i
  {
    hide MetaMatch;
    if i < |cls| {
      if cls[i] == '\\' { ContainedNever(c, cls, i + 2); }
      else if i + 2 < |cls| && cls[i + 1] == '-' { ContainedNever(c, cls, i + 3); }
      else { ContainedNever(c, cls, i + 1); }
    }
  }

  lemma TailText(cls: string, i: nat)
    requires i < |cls| && ClassText(cls[i..]) && cls[i] != '\\'
    ensures ClassText(cls[i + 1..])
  {
    assert cls[i..][0] == cls[i] && cls[i..][1..] == cls[i + 1..];
  }

  // A class as the compiler stores it is contained unless a range ends in a backslash.
  lemma {:induction false} NoBackslashRange(cls: string, i: nat)
    requires i <= |cls| && ClassText(cls[i..])
    requires forall k | 0 <= k < |cls| - 1 :: !(cls[k] == '-' && cls[k + 1] == '\\')
    ensures Contained(cls, i)
    decreases |cls| - i
  {
    if i < |cls| {
      var t := cls[i..];
      assert t[0] == cls[i] && t[1..] == cls[i + 1..];
      if cls[i] == '\\' {
        assert t[2..] == cls[i + 2..];
        NoBackslashRange(cls, i + 2);
      } else if i + 2 < |cls| && cls[i + 1] == '-' {
        assert !(cls[i + 1] == '-' && cls[i + 2] == '\\');
        TailText(cls, i); TailText(cls, i + 1); TailText(cls, i + 2);
        NoBackslashRange(cls, i + 3);
      } else {
        NoBackslashRange(cls, i + 1);
      }
    }
  }

  // ----- Programs in memory -------------------------------------------------------------

  // The nodes, where the bytes of each class begin, the memory from the class buffer
  // on, and what a class whose scan leaves that memory answers.
  datatype Prog = Prog(nodes: seq<Node>, starts: seq<nat>, mem: string, beyond: Accept)

  // Each class of a program has its bytes in memory, where it begins.
  ghost predicate Placed(nodes: seq<Node>, starts: seq<nat>, mem: string) {
    && |starts| == |nodes|
    && forall k | 0 <= k < |nodes| && nodes[k].Class? :: ClassAt(mem, starts[k], nodes[k].cls)
  }

  predicate InClass(re: Prog, i: nat, c: char)
    requires i < |re.starts|
  {
    match Look(c, re.mem, re.starts[i])
    case Hit => true
    case Miss => false
    case Off => re.beyond(i, c)
  }

  // one_match.
  predicate AtomTakes(re: Prog, i: nat, c: char) {
    && i < |re.nodes|
    && match re.nodes[i]
       case Class(neg, _) => i < |re.starts| && InClass(re, i, c) != neg
       case n => One(n, c)
  }

  function InMemory(re: Prog): Accept { (i: nat, c: char) => AtomTakes(re, i, c) }

  // No character of the text strays in any class of the program.
  ghost predicate Keeps(P: seq<Node>, T: string) {
    forall i, x | 0 <= i < |P| && P[i].Class? && 0 <= x < |T| :: !Strays(T[x], P[i].cls, 0)
  }

  // Then the program in memory is the program as written.
  lemma MemoryIsWritten(re: Prog, T: string)
    requires Placed(re.nodes, re.starts, re.mem) && Keeps(re.nodes, T)
    ensures AgreeOn(InMemory(re), AsWritten(re.nodes), re.nodes, T)
    ensures AgreeOn(AsWritten(re.nodes), InMemory(re), re.nodes, T)
  {
    hide Look, ClassMatch, Strays, MetaMatch;
    forall i: nat, x | i < |re.nodes| && 0 <= x < |T|
      ensures InMemory(re)(i, T[x]) == AsWritten(re.nodes)(i, T[x])
    {
      if re.nodes[i].Class? { LookIsMatch(T[x], re.mem, re.starts[i], re.nodes[i].cls, 0); }
    }
  }

  ghost predicate AllContained(P: seq<Node>) {
    forall k | 0 <= k < |P| && P[k].Class? :: Contained(P[k].cls, 0)
  }

  // Where every class is contained, that is so for every text.
  lemma ContainedKeeps(P: seq<Node>, T: string)
    requires AllContained(P)
    ensures Keeps(P, T)
  {
    forall i, x | 0 <= i < |P| && P[i].Class? && 0 <= x < |T| ensures !Strays(T[x], P[i].cls, 0) {
      ContainedNever(T[x], P[i].cls, 0);
    }
  }
}
