/** The second half of `detectDeadlock`: a depth-first search over the
    wait-for adjacency that records a cycle whenever it re-enters a node still
    on the recursion stack, plus the `normalizedCycles` deduplication helper
    and the `cycleProcs` highlight set. */
module CycleDetector {
  import opened Seqs
  import opened Rag

  /** Neighbours of `node`, or none when it has no adjacency entry. */
  function Neighbors(adj: map<Id, seq<Id>>, node: Id): seq<Id> {
    if node in adj then adj[node] else []
  }

  /** Consecutive elements of `path` are joined by adjacency edges. */
  ghost predicate IsWalk(adj: map<Id, seq<Id>>, path: seq<Id>) {
    forall i {:trigger Neighbors(adj, path[i])} :: 0 <= i < |path| - 1 ==> path[i + 1] in Neighbors(adj, path[i])
  }

  /** A walk that ends where it starts, with at least one edge. */
  ghost predicate IsClosedWalk(adj: map<Id, seq<Id>>, c: seq<Id>) {
    |c| >= 2 && c[0] == c[|c| - 1] && IsWalk(adj, c)
  }

  /** What the search records: a closed walk that repeats no node apart from
      its end, which closes it (`[P1, P2, P1]`, or `[P1, P1]` for a self-loop). */
  ghost predicate IsCycle(adj: map<Id, seq<Id>>, c: seq<Id>) {
    IsClosedWalk(adj, c) && NoDup(c[..|c| - 1])
  }

  /** The suffix of the current path from the first occurrence of a node that
      is re-entered while on the stack is a cycle. */
  lemma CycleFromPath(adj: map<Id, seq<Id>>, path: seq<Id>, node: Id)
    requires |path| >= 1 && path[|path| - 1] == node
    requires IsWalk(adj, path)
    requires NoDup(path[..|path| - 1])
    requires node in path[..|path| - 1]
    ensures 0 <= IndexOf(path, node) < |path| - 1
    ensures IsCycle(adj, path[IndexOf(path, node)..])
  {
    FirstIndexBeforeLast(path, node);
    SuffixIsCycle(adj, path, IndexOf(path, node));
  }

  /** A suffix of a walk that starts at the walk's last node is a cycle when
      the walk repeats no node before its end. */
  lemma SuffixIsCycle(adj: map<Id, seq<Id>>, path: seq<Id>, idx: int)
    requires 0 <= idx < |path| - 1 && path[idx] == path[|path| - 1]
    requires IsWalk(adj, path)
    requires NoDup(path[..|path| - 1])
    ensures IsCycle(adj, path[idx..])
  {
    WalkSuffix(adj, path, idx);
    var c := path[idx..];
    assert c[0] == c[|c| - 1];
    assert c[..|c| - 1] == path[..|path| - 1][idx..];
    NoDupSuffix(path[..|path| - 1], idx);
  }

  /** A node that occurs before the last position first occurs there too. */
  lemma FirstIndexBeforeLast(path: seq<Id>, node: Id)
    requires |path| >= 1 && node in path[..|path| - 1]
    ensures 0 <= IndexOf(path, node) < |path| - 1 && path[IndexOf(path, node)] == node
  {
    var j :| 0 <= j < |path| - 1 && path[..|path| - 1][j] == node;
    assert path[j] == node;
  }

  /** Every suffix of a walk is a walk. */
  lemma WalkSuffix(adj: map<Id, seq<Id>>, path: seq<Id>, k: nat)
    requires IsWalk(adj, path) && k <= |path|
    ensures IsWalk(adj, path[k..])
  {
    var c := path[k..];
    forall i | 0 <= i < |c| - 1 ensures c[i + 1] in Neighbors(adj, c[i]) {
      assert c[i] == path[k + i] && c[i + 1] == path[k + i + 1];
      assert path[k + i + 1] in Neighbors(adj, path[k + i]);
    }
  }

  lemma NoDupSuffix(s: seq<Id>, i: nat)
    requires NoDup(s) && i <= |s|
    ensures NoDup(s[i..])
  {
    forall a, b | 0 <= a < b < |s[i..]| ensures s[i..][a] != s[i..][b] {
      assert s[i..][a] == s[i + a] && s[i..][b] == s[i + b];
    }
  }

  function Elements(s: seq<Id>): set<Id> {
    set x | x in s
  }

  /** Extending a walk by an edge out of its last node gives a walk. */
  lemma WalkSnoc(adj: map<Id, seq<Id>>, path: seq<Id>, next: Id)
    requires |path| >= 1 && IsWalk(adj, path)
    requires next in Neighbors(adj, path[|path| - 1])
    ensures IsWalk(adj, path + [next])
  {
    var p := path + [next];
    forall i | 0 <= i < |p| - 1 ensures p[i + 1] in Neighbors(adj, p[i]) {
      if i < |path| - 1 {
        assert p[i] == path[i] && p[i + 1] == path[i + 1];
      }
    }
  }

  /** Pushing the last node of the path onto the stack: the stack then holds
      the whole path, which repeats no node. */
  lemma PushPath(path: seq<Id>, onStack: set<Id>)
    requires |path| >= 1 && NoDup(path[..|path| - 1])
    requires onStack == Elements(path[..|path| - 1])
    requires path[|path| - 1] !in onStack
    ensures NoDup(path)
    ensures onStack + {path[|path| - 1]} == Elements(path)
  {
    assert path[..|path| - 1] + [path[|path| - 1]] == path;
  }

  /** A subset is no larger than its superset. */
  lemma {:induction false} SubsetCard(a: set<Id>, b: set<Id>)
    requires a <= b
    ensures |a| <= |b|
    decreases |b|
  {
    if b != {} {
      var x :| x in b;
      SubsetCard(a - {x}, b - {x});
    }
  }

  /** Entering a node strictly shrinks the set of nodes not yet entered. */
  lemma UnvisitedShrinks(nodes: set<Id>, before: set<Id>, after: set<Id>, node: Id)
    requires after <= nodes && before + {node} <= after
    requires node in nodes && node !in before
    ensures |nodes - after| < |nodes - before|
  {
    assert nodes - after <= (nodes - before) - {node};
    assert |(nodes - before) - {node}| == |nodes - before| - 1;
    SubsetCard(nodes - after, (nodes - before) - {node});
  }

  /** Along a walk whose nodes are ranked so that every edge goes to a
      strictly smaller rank, ranks fall by at least one per edge. */
  lemma {:induction false} RankFalls(adj: map<Id, seq<Id>>, rank: map<Id, nat>, c: seq<Id>, i: nat, j: nat)
    requires IsWalk(adj, c)
    requires forall u, w :: u in rank && w in Neighbors(adj, u) ==> w in rank && rank[w] < rank[u]
    requires i <= j < |c| && c[i] in rank
    ensures c[j] in rank && rank[c[j]] + (j - i) <= rank[c[i]]
    decreases j - i
  {
    if i < j {
      RankFalls(adj, rank, c, i, j - 1);
      assert c[j] in Neighbors(adj, c[j - 1]);
    }
  }

  /** Such a ranking rules out any closed walk through a ranked node. */
  lemma ClosedWalkUnranked(adj: map<Id, seq<Id>>, rank: map<Id, nat>, c: seq<Id>)
    requires IsClosedWalk(adj, c)
    requires Descending(adj, rank)
    ensures forall k :: 0 <= k < |c| ==> c[k] !in rank
  {
    forall k | 0 <= k < |c| ensures c[k] !in rank {
      if c[k] in rank {
        RankFalls(adj, rank, c, k, |c| - 1);
        RankFalls(adj, rank, c, 0, k);
        assert false;
      }
    }
  }

  /** Edges from ranked nodes lead to ranked nodes of strictly smaller rank. */
  ghost predicate Descending(adj: map<Id, seq<Id>>, rank: map<Id, nat>) {
    forall u, w :: u in rank && w in Neighbors(adj, u) ==> w in rank && rank[w] < rank[u]
  }

  /** What holds of the search state between steps: stacked nodes are
      visited, visited nodes lie in `nodes` (which holds every edge target),
      every recorded cycle is a cycle, the finished nodes (visited, no longer
      stacked) are exactly the ranked ones, `entries` counts one entry per
      visited node, a finished node's successors are
      all visited, and while no cycle has been recorded the ranks fall
      along every edge out of a finished node. */
  ghost predicate SearchInv(adj: map<Id, seq<Id>>, nodes: set<Id>, visited: set<Id>, onStack: set<Id>,
                            cycles: seq<seq<Id>>, entries: nat, rank: map<Id, nat>, clock: nat)
  {
    && (forall u, w :: w in Neighbors(adj, u) ==> w in nodes)
    && onStack <= visited <= nodes
    && entries == |visited|
    && (forall c :: c in cycles ==> IsCycle(adj, c))
    && rank.Keys == visited - onStack
    && (forall x :: x in rank ==> rank[x] < clock)
    && (forall u, w :: u in rank && w in Neighbors(adj, u) ==> w in visited)
    && (cycles == [] ==> Descending(adj, rank))
  }

  /** Recording a cycle keeps the invariant. */
  lemma RecordKeeps(adj: map<Id, seq<Id>>, nodes: set<Id>, visited: set<Id>, onStack: set<Id>,
                    cycles: seq<seq<Id>>, entries: nat, rank: map<Id, nat>, clock: nat, c: seq<Id>)
    requires SearchInv(adj, nodes, visited, onStack, cycles, entries, rank, clock)
    requires IsCycle(adj, c)
    ensures SearchInv(adj, nodes, visited, onStack, cycles + [c], entries, rank, clock)
  {
  }

  /** Entering an unvisited node (marking it visited and stacked) keeps the invariant. */
  lemma EnterKeeps(adj: map<Id, seq<Id>>, nodes: set<Id>, visited: set<Id>, onStack: set<Id>,
                   cycles: seq<seq<Id>>, entries: nat, rank: map<Id, nat>, clock: nat, node: Id)
    requires SearchInv(adj, nodes, visited, onStack, cycles, entries, rank, clock)
    requires node in nodes && node !in visited
    ensures SearchInv(adj, nodes, visited + {node}, onStack + {node}, cycles, entries + 1, rank, clock)
  {
    assert rank.Keys == (visited + {node}) - (onStack + {node});
  }

  /** Finishing a stacked node whose successors are all visited, and each
      finished unless a cycle has been recorded, keeps the invariant: the node
      gets the next rank, above every rank given so far. */
  lemma FinishKeeps(adj: map<Id, seq<Id>>, nodes: set<Id>, visited: set<Id>, onStack: set<Id>,
                    cycles: seq<seq<Id>>, entries: nat, rank: map<Id, nat>, clock: nat, node: Id)
    requires SearchInv(adj, nodes, visited, onStack, cycles, entries, rank, clock)
    requires node in onStack
    requires forall w :: w in Neighbors(adj, node) ==> w in visited && (w in rank || cycles != [])
    ensures SearchInv(adj, nodes, visited, onStack - {node}, cycles, entries, rank[node := clock], clock + 1)
  {
    var rank' := rank[node := clock];
    assert rank'.Keys == visited - (onStack - {node});
    if cycles == [] {
      forall u, w | u in rank' && w in Neighbors(adj, u) ensures w in rank' && rank'[w] < rank'[u] {
        if u == node {
          assert w in rank;
        } else {
          assert w in rank && rank[w] < rank[u];
        }
      }
    }
  }

  /** The search state `detectDeadlock` shares between all its `dfs` calls. */
  class CycleSearch {
    const adj: map<Id, seq<Id>>
    /** Every node the search can reach: the start nodes and every edge target. */
    ghost const Nodes: set<Id>
    var visited: set<Id>
    var onStack: set<Id>
    var cycles: seq<seq<Id>>
    /** How many times `dfs` has entered (marked visited) a node. */
    ghost var entries: nat
    /** Finishing order: the rank of a node is the number of nodes finished before it. */
    ghost var rank: map<Id, nat>
    ghost var clock: nat

    ghost predicate Valid()
      reads this
    {
      SearchInv(adj, Nodes, visited, onStack, cycles, entries, rank, clock)
    }

    constructor (adj: map<Id, seq<Id>>, starts: seq<Id>)
      ensures Valid()
      ensures this.adj == adj && (forall x :: x in starts ==> x in Nodes)
      ensures visited == {} && onStack == {} && cycles == [] && entries == 0
    {
      this.adj := adj;
      Nodes := (set x | x in starts) + (set u, w | u in adj && w in adj[u] :: w);
      visited, onStack, cycles := {}, {}, [];
      entries, rank, clock := 0, map[], 0;
    }

    /** `dfs(node, path)`, where `path` is the current recursion path ending
        in `node`: a stacked node closes a cycle, an unvisited one is explored,
        and a node visited and already finished is skipped. */
    method Dfs(node: Id, path: seq<Id>)
      requires Valid()
      requires node in Nodes
      requires |path| >= 1 && path[|path| - 1] == node
      requires IsWalk(adj, path)
      requires NoDup(path[..|path| - 1])
      requires onStack == Elements(path[..|path| - 1])
      modifies this
      decreases |Nodes - visited|, 2
      ensures Valid()
      ensures onStack == old(onStack)
      ensures old(visited) <= visited && node in visited
      ensures old(cycles) <= cycles
      ensures node in old(onStack) ==> cycles == old(cycles) + [path[IndexOf(path, node)..]]
      ensures node !in old(onStack) && node in old(visited) ==> cycles == old(cycles) && visited == old(visited)
    {
      if node in onStack {
        Record(node, path);
      } else if node !in visited {
        Explore(node, path);
      }
    }

    /** The cycle branch of `dfs`: `node` is on the stack, so the path from
        its first occurrence to the end is a cycle, and it is recorded. */
    method Record(node: Id, path: seq<Id>)
      requires Valid()
      requires node in onStack
      requires |path| >= 1 && path[|path| - 1] == node
      requires IsWalk(adj, path)
      requires NoDup(path[..|path| - 1])
      requires onStack == Elements(path[..|path| - 1])
      modifies this
      ensures Valid()
      ensures cycles == old(cycles) + [path[IndexOf(path, node)..]]
      ensures visited == old(visited) && onStack == old(onStack)
      ensures 0 <= IndexOf(path, node) < |path| - 1 && IsCycle(adj, path[IndexOf(path, node)..])
    {
      CycleFromPath(adj, path, node);
      var idx := IndexOf(path, node);
      RecordKeeps(adj, Nodes, visited, onStack, cycles, entries, rank, clock, path[idx..]);
      cycles := cycles + [path[idx..]];
    }

    /** The exploring branch of `dfs`: mark `node` visited and stacked, run
        `dfs` on each neighbour, then unstack it and give it the next rank. */
    method Explore(node: Id, path: seq<Id>)
      requires Valid()
      requires node in Nodes && node !in visited
      requires |path| >= 1 && path[|path| - 1] == node
      requires IsWalk(adj, path)
      requires NoDup(path[..|path| - 1])
      requires onStack == Elements(path[..|path| - 1])
      modifies this
      decreases |Nodes - visited|, 1
      ensures Valid()
      ensures onStack == old(onStack)
      ensures old(visited) <= visited && node in visited
      ensures old(cycles) <= cycles
    {
      EnterKeeps(adj, Nodes, visited, onStack, cycles, entries, rank, clock, node);
      PushPath(path, onStack);
      UnvisitedShrinks(Nodes, visited, visited + {node}, node);
      visited := visited + {node};
      entries := entries + 1;
      onStack := onStack + {node};
      VisitNeighbors(node, path);
      FinishKeeps(adj, Nodes, visited, onStack, cycles, entries, rank, clock, node);
      onStack := onStack - {node};
      rank := rank[node := clock];
      clock := clock + 1;
    }

    /** The loop of `dfs` over the neighbours of a node it has just entered
        and stacked: on return every neighbour is visited, and finished unless
        a cycle has been recorded. */
    method VisitNeighbors(node: Id, path: seq<Id>)
      requires Valid()
      requires node in onStack
      requires |path| >= 1 && path[|path| - 1] == node
      requires IsWalk(adj, path)
      requires NoDup(path)
      requires onStack == Elements(path)
      modifies this
      decreases |Nodes - visited| + 1, 0
      ensures Valid()
      ensures onStack == old(onStack)
      ensures old(visited) <= visited
      ensures old(cycles) <= cycles
      ensures forall w :: w in Neighbors(adj, node) ==> w in visited && (w in rank || cycles != [])
    {
      var neighbors := Neighbors(adj, node);
      for i := 0 to |neighbors|
        invariant Valid()
        invariant onStack == old(onStack)
        invariant old(visited) <= visited
        invariant old(cycles) <= cycles
        invariant forall j :: 0 <= j < i ==> neighbors[j] in visited && (neighbors[j] in rank || cycles != [])
      {
        var nb := neighbors[i];
        WalkSnoc(adj, path, nb);
        assert (path + [nb])[..|path|] == path;
        SubsetCard(Nodes - visited, Nodes - old(visited));
        ghost var visited0, rank0, cycles0 := visited, rank, cycles;
        Dfs(nb, path + [nb]);
        forall j | 0 <= j < i + 1 ensures neighbors[j] in visited && (neighbors[j] in rank || cycles != []) {
          if j < i {
            assert neighbors[j] in visited0 && (neighbors[j] in rank0 || cycles0 != []);
          }
        }
      }
    }
  }

  /** `detectDeadlock`'s search: a `dfs` from every start node not yet
      visited, all sharing one `visited` set, one stack and one cycle list.
      `reached` is the set of nodes the search entered and `entries` the
      number of times it entered one: each node is entered at most once. */
  method Detect(adj: map<Id, seq<Id>>, starts: seq<Id>)
    returns (cycles: seq<seq<Id>>, ghost reached: set<Id>, ghost entries: nat)
    ensures forall c :: c in cycles ==> IsCycle(adj, c)
    ensures entries == |reached|
    ensures forall x :: x in starts ==> x in reached
    ensures forall u, w :: u in reached && w in Neighbors(adj, u) ==> w in reached
    ensures cycles == [] ==> forall c :: IsClosedWalk(adj, c) ==> forall x :: x in c ==> x !in reached
  {
    var search := new CycleSearch(adj, starts);
    for i := 0 to |starts|
      invariant search.Valid() && search.adj == adj
      invariant search.onStack == {}
      invariant forall x :: x in starts ==> x in search.Nodes
      invariant forall j :: 0 <= j < i ==> starts[j] in search.visited
    {
      if starts[i] !in search.visited {
        search.Dfs(starts[i], [starts[i]]);
      }
    }
    cycles, reached, entries := search.cycles, search.visited, search.entries;
    if cycles == [] {
      forall c | IsClosedWalk(adj, c) ensures forall x :: x in c ==> x !in reached {
        forall x | x in c ensures x !in reached {
          if x in reached {
            var k :| 0 <= k < |c| && c[k] == x;
            ClosedWalkUnranked(adj, search.rank, c);
          }
        }
      }
    }
  }

  /** The key `normalizedCycles` compares: the sorted, joined node list of a
      cycle, which identifies exactly the cycle's multiset of nodes. */
  function Key(c: seq<Id>): multiset<Id> {
    multiset(c)
  }

  function KeysOf(cs: seq<seq<Id>>): set<multiset<Id>> {
    set c | c in cs :: Key(c)
  }

  /** The cycles kept by `normalizedCycles`: each one whose key was not seen before. */
  function Normalized(cs: seq<seq<Id>>): seq<seq<Id>> {
    if cs == [] then []
    else
      var out := Normalized(cs[..|cs| - 1]);
      var c := cs[|cs| - 1];
      if Key(c) in KeysOf(out) then out else out + [c]
  }

  /** `normalizedCycles` keeps a subsequence of its input: cycles are only dropped, never reordered. */
  lemma {:induction false} NormalizedSubsequence(cs: seq<seq<Id>>)
    ensures IsSubsequence(Normalized(cs), cs)
  {
    if cs == [] {
      SubsequenceOfEmpty<seq<Id>>([]);
    } else {
      var init, c := cs[..|cs| - 1], cs[|cs| - 1];
      assert cs == init + [c];
      NormalizedSubsequence(init);
      SubsequenceAppend(Normalized(init), init, c);
    }
  }

  /** Every key of the input survives: the output carries exactly the input's keys. */
  lemma {:induction false} NormalizedKeys(cs: seq<seq<Id>>)
    ensures KeysOf(Normalized(cs)) == KeysOf(cs)
  {
    if cs != [] {
      var init, c := cs[..|cs| - 1], cs[|cs| - 1];
      assert cs == init + [c];
      NormalizedKeys(init);
      assert KeysOf(cs) == KeysOf(init) + {Key(c)};
      assert KeysOf(Normalized(init) + [c]) == KeysOf(Normalized(init)) + {Key(c)};
    }
  }

  /** No two kept cycles share a key. */
  lemma {:induction false} NormalizedDistinct(cs: seq<seq<Id>>)
    ensures forall i, j :: 0 <= i < j < |Normalized(cs)| ==> Key(Normalized(cs)[i]) != Key(Normalized(cs)[j])
  {
    if cs != [] {
      var init, c := cs[..|cs| - 1], cs[|cs| - 1];
      var prev, out := Normalized(init), Normalized(cs);
      NormalizedDistinct(init);
      if Key(c) !in KeysOf(prev) {
        assert out == prev + [c];
        forall i, j | 0 <= i < j < |out| ensures Key(out[i]) != Key(out[j]) {
          if j == |out| - 1 {
            assert out[i] in prev;
          }
        }
      }
    }
  }

  /** `cs[i]` is the first cycle of `cs` carrying its key. */
  ghost predicate FirstWithKey(cs: seq<seq<Id>>, i: int)
    requires 0 <= i < |cs|
  {
    forall j :: 0 <= j < i ==> Key(cs[j]) != Key(cs[i])
  }

  /** Every element of `out` is the first element of `cs` with its key. */
  ghost predicate KeepsFirst(cs: seq<seq<Id>>, out: seq<seq<Id>>) {
    forall k :: 0 <= k < |out| ==> exists i :: 0 <= i < |cs| && out[k] == cs[i] && FirstWithKey(cs, i)
  }

  /** Each kept cycle is the first input cycle with its key. */
  lemma {:induction false} NormalizedKeepsFirst(cs: seq<seq<Id>>)
    ensures KeepsFirst(cs, Normalized(cs))
  {
    if cs != [] {
      var init, c := cs[..|cs| - 1], cs[|cs| - 1];
      assert cs == init + [c];
      NormalizedKeepsFirst(init);
      KeepsFirstStep(init, c);
    }
  }

  /** One step of `Normalized`: a cycle whose key was seen is dropped, and
      one whose key is new is kept, being the first with that key. */
  lemma KeepsFirstStep(init: seq<seq<Id>>, c: seq<Id>)
    requires KeepsFirst(init, Normalized(init))
    ensures KeepsFirst(init + [c], Normalized(init + [c]))
  {
    var cs, prev := init + [c], Normalized(init);
    assert cs[..|cs| - 1] == init;
    var out := Normalized(cs);
    forall k | 0 <= k < |prev| ensures exists i :: 0 <= i < |cs| && prev[k] == cs[i] && FirstWithKey(cs, i) {
      var i :| 0 <= i < |init| && prev[k] == init[i] && FirstWithKey(init, i);
      FirstWithKeyExtend(init, c, i);
      assert prev[k] == cs[i];
    }
    if Key(c) in KeysOf(prev) {
      assert out == prev;
    } else {
      assert out == prev + [c];
      NormalizedKeys(init);
      FirstWithKeyNew(init, c);
      forall k | 0 <= k < |out| ensures exists i :: 0 <= i < |cs| && out[k] == cs[i] && FirstWithKey(cs, i) {
        if k < |prev| {
          assert out[k] == prev[k];
        } else {
          assert out[k] == cs[|init|];
        }
      }
    }
  }

  lemma FirstWithKeyExtend(init: seq<seq<Id>>, c: seq<Id>, i: int)
    requires 0 <= i < |init| && FirstWithKey(init, i)
    ensures FirstWithKey(init + [c], i)
  {
    forall j | 0 <= j < i ensures Key((init + [c])[j]) != Key((init + [c])[i]) {
      assert (init + [c])[j] == init[j] && (init + [c])[i] == init[i];
    }
  }

  lemma FirstWithKeyNew(init: seq<seq<Id>>, c: seq<Id>)
    requires Key(c) !in KeysOf(init)
    ensures FirstWithKey(init + [c], |init|)
  {
    forall j | 0 <= j < |init| ensures Key((init + [c])[j]) != Key((init + [c])[|init|]) {
      assert (init + [c])[j] == init[j] && init[j] in init;
    }
  }

  /** `normalizedCycles`: one pass with a `seen` set of keys. */
  method NormalizeCycles(cycles: seq<seq<Id>>) returns (out: seq<seq<Id>>)
    ensures out == Normalized(cycles)
  {
    var seen: set<multiset<Id>> := {};
    out := [];
    for i := 0 to |cycles|
      invariant out == Normalized(cycles[..i])
      invariant seen == KeysOf(out)
    {
      var key := multiset(cycles[i]);
      assert cycles[..i + 1][..i] == cycles[..i];
      if key !in seen {
        seen := seen + {key};
        out := out + [cycles[i]];
      }
    }
    assert cycles[..|cycles|] == cycles;
  }

  /** `cycleProcs`: every node that occurs in some recorded cycle. */
  function CycleProcs(cycles: seq<seq<Id>>): set<Id> {
    set c, x | c in cycles && x in c :: x
  }
}
