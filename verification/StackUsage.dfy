// Worst-case stack analysis (tools/dbt/stackusage.py): a memoised depth-first
// walk of the call graph. Its worst figure is the exact maximum over all call
// chains, and its recursion flag is raised exactly when a cycle is reachable.

module StackUsage {

  // ----- Call graphs ----------------------------------------------------------------

  // Frame sizes, and callees in the order the walk happens to meet them.
  datatype Graph = Graph(frames: map<string, nat>, edges: map<string, seq<string>>)

  function Frame(g: Graph, n: string): nat { if n in g.frames then g.frames[n] else 0 }

  function Callees(g: Graph, n: string): seq<string> { if n in g.edges then g.edges[n] else [] }

  // A call chain, outermost function first.
  ghost predicate Chain(g: Graph, p: seq<string>)
    decreases |p|
  {
    p != [] && (|p| > 1 ==> p[1] in Callees(g, p[0]) && Chain(g, p[1..]))
  }

  ghost predicate ChainFrom(g: Graph, n: string, p: seq<string>) { Chain(g, p) && p[0] == n }

  function Cost(g: Graph, p: seq<string>): nat {
    if p == [] then 0 else Frame(g, p[0]) + Cost(g, p[1..])
  }

  // A chain from `root` that comes back to a function it already entered.
  ghost predicate Returns(g: Graph, root: string, n: string, p: seq<string>) {
    ChainFrom(g, root, p) && p[|p| - 1] == n && n in p[..|p| - 1]
  }

  ghost predicate OnCycle(g: Graph, root: string, n: string) { exists p :: Returns(g, root, n, p) }

  ghost predicate Cyclic(g: Graph, root: string) { exists n :: OnCycle(g, root, n) }

  lemma {:induction false} ChainSnoc(g: Graph, p: seq<string>, n: string)
    requires Chain(g, p) && n in Callees(g, p[|p| - 1])
    ensures Chain(g, p + [n])
    decreases |p|
  {
    if |p| > 1 {
      ChainSnoc(g, p[1..], n);
      assert (p + [n])[1..] == p[1..] + [n];
    } else {
      assert (p + [n])[1..] == [n];
    }
  }

  // A chain is a walk along edges of the graph, and costs the sum of its frames, where
  // a function without a frame costs nothing.
  lemma {:induction false} ChainExactly(g: Graph, p: seq<string>)
    ensures Chain(g, p) <==> p != [] && forall i | 0 <= i < |p| - 1 :: p[i] in g.edges && p[i + 1] in g.edges[p[i]]
    decreases |p|
  {
    if |p| > 1 {
      ChainExactly(g, p[1..]);
      if Chain(g, p[1..]) {
        forall i | 0 < i < |p| - 1 ensures p[i] in g.edges && p[i + 1] in g.edges[p[i]] {
          assert p[1..][i - 1] == p[i] && p[1..][i] == p[i + 1];
        }
      }
      if forall i | 0 <= i < |p| - 1 :: p[i] in g.edges && p[i + 1] in g.edges[p[i]] {
        forall i | 0 <= i < |p| - 2 ensures p[1..][i] in g.edges && p[1..][i + 1] in g.edges[p[1..][i]] {
          assert p[1..][i] == p[i + 1] && p[1..][i + 1] == p[i + 2];
        }
        assert p[0] in g.edges && p[0 + 1] in g.edges[p[0]];
      }
    }
  }

  lemma {:induction false} CostAdds(g: Graph, p: seq<string>, n: string)
    ensures Cost(g, p + [n]) == Cost(g, p) + if n in g.frames then g.frames[n] else 0
    decreases |p|
  {
    if p == [] {
      assert [n][1..] == [] && [] + [n] == [n];
    } else {
      assert (p + [n])[1..] == p[1..] + [n];
      CostAdds(g, p[1..], n);
    }
  }

  // ----- What the memo promises ---------------------------------------------------------

  type Memo = map<string, (nat, seq<string>)>

  // While no recursion is flagged, a memoised function has all its callees
  // memoised before it, its total covers each of them, and its path realises it.
  ghost predicate Settled(g: Graph, memo: Memo, rank: map<string, nat>, n: string)
    requires n in memo
  {
    && n in rank
    && ChainFrom(g, n, memo[n].1) && Cost(g, memo[n].1) == memo[n].0
    && Frame(g, n) <= memo[n].0
    && forall c | c in Callees(g, n) :: c in memo && c in rank && rank[c] < rank[n]
                                        && Frame(g, n) + memo[c].0 <= memo[n].0
  }

  ghost predicate AllSettled(g: Graph, memo: Memo, rank: map<string, nat>) {
    forall n | n in memo :: Settled(g, memo, rank, n)
  }

  // Every chain from a memoised function costs at most its total.
  lemma {:induction false} TotalCovers(g: Graph, memo: Memo, rank: map<string, nat>, n: string, p: seq<string>)
    requires AllSettled(g, memo, rank) && n in memo && ChainFrom(g, n, p)
    ensures Cost(g, p) <= memo[n].0
    decreases |p|
  {
    assert Settled(g, memo, rank, n);
    if |p| > 1 {
      TotalCovers(g, memo, rank, p[1], p[1..]);
    }
  }

  // ... and never meets a function of equal or higher rank again.
  lemma {:induction false} RankFalls(g: Graph, memo: Memo, rank: map<string, nat>, n: string, p: seq<string>, k: nat)
    requires AllSettled(g, memo, rank) && n in memo && ChainFrom(g, n, p) && 0 < k < |p|
    ensures p[k] in memo && p[k] in rank && n in rank && rank[p[k]] < rank[n]
    decreases |p|
  {
    assert Settled(g, memo, rank, n);
    assert p[1] in memo;
    if k > 1 {
      RankFalls(g, memo, rank, p[1], p[1..], k - 1);
      assert p[1..][k - 1] == p[k];
    }
  }

  lemma {:induction false} ChainTail(g: Graph, p: seq<string>, i: nat)
    requires Chain(g, p) && i < |p|
    ensures Chain(g, p[i..])
    decreases i
  {
    if i > 0 {
      ChainTail(g, p[1..], i - 1);
      assert p[1..][i - 1..] == p[i..];
    }
  }

  lemma SettledIsAcyclic(g: Graph, memo: Memo, rank: map<string, nat>, root: string)
    requires AllSettled(g, memo, rank) && root in memo
    ensures !Cyclic(g, root)
  {
    forall n, p | Returns(g, root, n, p) ensures false {
      var i :| 0 <= i < |p| - 1 && p[i] == n;
      if i > 0 { RankFalls(g, memo, rank, root, p, i); }
      ChainTail(g, p, i);
      RankFalls(g, memo, rank, n, p[i..], |p| - 1 - i);
    }
  }

  // Adding a function whose callees are all settled keeps everything settled.
  lemma Settle(g: Graph, memo: Memo, rank: map<string, nat>, n: string, total: nat, path: seq<string>, r: nat)
    requires AllSettled(g, memo, rank) && n !in memo
    requires forall m | m in rank :: rank[m] < r
    requires ChainFrom(g, n, path) && Cost(g, path) == total && Frame(g, n) <= total
    requires forall c | c in Callees(g, n) :: c in memo && Frame(g, n) + memo[c].0 <= total
    ensures AllSettled(g, memo[n := (total, path)], rank[n := r])
  {
    var memo', rank' := memo[n := (total, path)], rank[n := r];
    forall c | c in Callees(g, n) ensures c in rank { assert Settled(g, memo, rank, c); }
    forall m | m in memo' ensures Settled(g, memo', rank', m) {
      if m != n {
        assert Settled(g, memo, rank, m);
      }
    }
  }

  // ----- The walk -------------------------------------------------------------------------

  // Every function a chain from `root` can reach is in `all`.
  ghost predicate Closed(g: Graph, all: set<string>) {
    forall n, c | n in all && c in Callees(g, n) :: c in all
  }

  class Analyzer {
    const g: Graph
    const root: string
    ghost const all: set<string>
    var memo: Memo
    var recursive: set<string>
    ghost var rank: map<string, nat>
    ghost var next: nat

    constructor (g: Graph, root: string, ghost all: set<string>)
      requires root in all && Closed(g, all)
      ensures this.g == g && this.root == root && this.all == all
      ensures memo == map[] && recursive == {} && Good() && Sound()
    {
      this.g, this.root, this.all := g, root, all;
      memo, recursive, rank, next := map[], {}, map[], 0;
    }

    ghost predicate Good()
      reads this
    {
      recursive == {} ==> AllSettled(g, memo, rank) && forall m | m in rank :: rank[m] < next
    }

    // Only functions on a reachable cycle are flagged.
    ghost predicate Sound()
      reads this
    {
      forall n | n in recursive :: OnCycle(g, root, n)
    }

    // walk(node, stack). `chain` is the call chain from the root that `stack`
    // holds as a set.
    method Walk(node: string, stack: set<string>, ghost chain: seq<string>) returns (total: nat, path: seq<string>)
      requires node in all && Closed(g, all) && stack <= all
      requires forall x :: x in stack <==> x in chain
      requires ChainFrom(g, root, chain + [node])
      requires Good() && Sound() && memo.Keys !! stack
      modifies this
      ensures Good() && Sound() && memo.Keys !! stack
      ensures old(recursive) <= recursive
      ensures forall n | n in old(memo) :: n in memo && memo[n] == old(memo[n])
      ensures recursive == {} ==> node in memo && memo[node] == (total, path)
      decreases |all - stack|
    {
      hide Settled, AllSettled, OnCycle, Chain, ChainFrom, Returns, Cost, Closed, Best, Covered;
      if node in stack {
        ComesBack(node, chain);
        recursive := recursive + {node};
        return 0, [];
      }
      if node in memo {
        return memo[node].0, memo[node].1;
      }
      var frame := Frame(g, node);
      var bestSub, bestPath := 0, [];
      var callees := Callees(g, node);
      var k := 0;
      SmallerSet(all - (stack + {node}), all - stack);
      BestNone(node);
      CoveredNone();
      assert callees[..0] == [];
      while k < |callees|
        invariant k <= |callees|
        invariant Good() && Sound() && memo.Keys !! stack + {node}
        invariant old(recursive) <= recursive
        invariant forall n | n in old(memo) :: n in memo && memo[n] == old(memo[n])
        invariant recursive == {} ==> Covered(memo, callees[..k], bestSub)
        invariant recursive == {} ==> Best(node, bestSub, bestPath)
      {
        var c := callees[k];
        CalleeChain(node, chain, c);
        ghost var memo0 := memo;
        var sub, p := Walk(c, stack + {node}, chain + [node]);
        if recursive == {} {
          BestNew(node, c, sub, p);
          CoveredMore(memo0, memo, callees, k, bestSub, sub);
        }
        if sub > bestSub { bestSub, bestPath := sub, p; }
        k := k + 1;
      }
      assert callees[..k] == callees;
      if recursive == {} { CoveredAll(callees, bestSub); }
      total, path := frame + bestSub, [node] + bestPath;
      if recursive == {} {
        BestPath(node, bestSub, bestPath);
        Settle(g, memo, rank, node, total, path, next);
      }
      memo := memo[node := (total, path)];
      rank, next := rank[node := next], next + 1;
    }

    lemma ComesBack(node: string, chain: seq<string>)
      requires ChainFrom(g, root, chain + [node]) && node in chain
      ensures OnCycle(g, root, node)
    {
      assert (chain + [node])[..|chain|] == chain;
      assert Returns(g, root, node, chain + [node]);
    }

    lemma CalleeChain(node: string, chain: seq<string>, c: string)
      requires ChainFrom(g, root, chain + [node]) && c in Callees(g, node) && node in all && Closed(g, all)
      ensures ChainFrom(g, root, chain + [node] + [c]) && c in all
    {
      ChainSnoc(g, chain + [node], c);
    }

    ghost predicate Covered(memo: Memo, cs: seq<string>, sub: nat) {
      forall c | c in cs :: c in memo && memo[c].0 <= sub
    }

    lemma CoveredNone()
      ensures Covered(memo, [], 0)
    {}

    lemma CoveredAll(cs: seq<string>, sub: nat)
      requires Covered(memo, cs, sub)
      ensures forall c | c in cs :: c in memo && memo[c].0 <= sub
    {}

    lemma CoveredMore(memo0: Memo, memo1: Memo, cs: seq<string>, k: nat, best: nat, sub: nat)
      requires k < |cs| && Covered(memo0, cs[..k], best) && cs[k] in memo1 && memo1[cs[k]].0 == sub
      requires forall n | n in memo0 :: n in memo1 && memo1[n] == memo0[n]
      ensures Covered(memo1, cs[..k + 1], if sub > best then sub else best)
    {
      assert cs[..k + 1] == cs[..k] + [cs[k]];
    }

    lemma BestNone(node: string)
      ensures Best(node, 0, [])
    {}

    lemma BestNew(node: string, c: string, sub: nat, p: seq<string>)
      requires AllSettled(g, memo, rank) && c in memo && memo[c] == (sub, p) && c in Callees(g, node)
      ensures Best(node, sub, p)
    {
      assert Settled(g, memo, rank, c);
    }

    // The best callee path found so far, or none if no callee costs anything.
    ghost predicate Best(node: string, sub: nat, path: seq<string>) {
      if path == [] then sub == 0
      else Chain(g, path) && path[0] in Callees(g, node) && Cost(g, path) == sub
    }

    lemma BestPath(node: string, sub: nat, path: seq<string>)
      requires Best(node, sub, path)
      ensures ChainFrom(g, node, [node] + path) && Cost(g, [node] + path) == Frame(g, node) + sub
      ensures Frame(g, node) <= Frame(g, node) + sub
    {
      assert ([node] + path)[1..] == path;
    }
  }

  lemma SmallerSet<T>(a: set<T>, b: set<T>)
    requires a < b
    ensures |a| < |b|
  {
    assert |b - a| + |a| == |b| by { assert (b - a) + a == b; }
    assert b - a != {};
  }

  // ----- The report ---------------------------------------------------------------------

  datatype Report = Report(ok: bool, worst: nat, path: seq<string>, recursive: set<string>, dynamic: seq<string>)

  function Filter(p: seq<string>, keep: set<string>): (r: seq<string>)
    ensures forall f :: f in r <==> f in p && f in keep
  {
    if p == [] then [] else (if p[0] in keep then [p[0]] else []) + Filter(p[1..], keep)
  }

  ghost function Functions(g: Graph, root: string): (all: set<string>)
    ensures root in all && Closed(g, all)
  {
    {root} + set n, c | n in g.edges && c in g.edges[n] :: c
  }

  // analyze(): without a reachable cycle, `worst` is the cost of the reported
  // chain and no chain from the root costs more; the recursion flag is exact.
  method Analyze(g: Graph, root: string, dynamic: set<string>) returns (r: Report)
    ensures r.ok <==> root in g.frames
    ensures r.ok ==> (r.recursive == {} <==> !Cyclic(g, root))
    ensures r.ok ==> forall n | n in r.recursive :: OnCycle(g, root, n)
    ensures r.ok && r.recursive == {} ==> ChainFrom(g, root, r.path) && Cost(g, r.path) == r.worst
    ensures r.ok && r.recursive == {} ==> forall p | ChainFrom(g, root, p) :: Cost(g, p) <= r.worst
    ensures r.ok ==> forall f :: f in r.dynamic <==> f in r.path && f in dynamic
  {
    if root !in g.frames { return Report(false, 0, [], {}, []); }
    var a := new Analyzer(g, root, Functions(g, root));
    var worst, path := a.Walk(root, {}, []);
    if a.recursive == {} {
      SettledIsAcyclic(g, a.memo, a.rank, root);
      assert Settled(g, a.memo, a.rank, root);
      forall p | ChainFrom(g, root, p) ensures Cost(g, p) <= worst {
        TotalCovers(g, a.memo, a.rank, root, p);
      }
    }
    r := Report(true, worst, path, a.recursive, Filter(path, dynamic));
  }

  const STACK_RESERVE := 3072
  const STACK_FLOOR := 3072

  function Max(a: int, b: int): int { if a < b then b else a }

  // A floating-point product with the margin of 20 %: the factor 1.0 + 0.20 and the
  // product are each rounded, which leaves a relative error far below EPS.
  const EPS := 0.000_000_000_000_001

  ghost predicate Rounded(scaled: nat -> real) {
    forall n: nat :: Near(scaled(n), n)
  }

  predicate Near(x: real, n: nat) {
    1.2 * (1.0 - EPS) * n as real <= x <= 1.2 * (1.0 + EPS) * n as real
  }

  // recommend(): none without an entry point or with recursion, else at least the
  // chain and the reserve, the floor, and the margin up to rounding; and no more than
  // that takes, in steps of 16.
  method Recommend(r: Report, scaled: nat -> real) returns (ok: bool, size: nat)
    requires Rounded(scaled)
    ensures ok <==> r.ok && r.recursive == {}
    ensures ok ==> size % 16 == 0 && size >= 3072 && size >= r.worst + 3072
    ensures ok ==> size as real > 1.2 * (1.0 - EPS) * (r.worst + 3072) as real - 1.0
    ensures ok && size >= 3072 + 16 ==>
              (size - 15) as real <= 1.2 * (1.0 + EPS) * (r.worst + 3072) as real
  {
    if !r.ok || r.recursive != {} { return false, 0; }
    var need := r.worst + STACK_RESERVE;
    var raw := scaled(need);
    assert Near(raw, need);
    FloorCovers(raw, need);
    size := Max(STACK_FLOOR, raw.Floor);
    size := (size + 15) / 16 * 16;
    ok := true;
  }

  // Rounding cannot eat up the margin.
  lemma FloorCovers(raw: real, need: nat)
    requires Near(raw, need)
    ensures raw.Floor >= need
  {
    assert 1.2 * (1.0 - EPS) >= 1.0;
    assert 1.2 * (1.0 - EPS) * need as real >= 1.0 * need as real;
    assert raw >= need as real;
  }

  // The size recommended for a program covers every call chain from its entry
  // point, with the reserve on top.
  method SizeFor(g: Graph, root: string, dynamic: set<string>, scaled: nat -> real) returns (ok: bool, size: nat)
    requires Rounded(scaled)
    ensures ok <==> root in g.frames && !Cyclic(g, root)
    ensures ok ==> size % 16 == 0 && forall p | ChainFrom(g, root, p) :: Cost(g, p) + 3072 <= size
  {
    var r := Analyze(g, root, dynamic);
    ok, size := Recommend(r, scaled);
  }
}
