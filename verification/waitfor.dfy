/** The first half of `detectDeadlock`: the wait-for graph. A request whose
    resource has no free instance makes its process wait for the holder of
    every allocation record on that resource. The edge list keeps one entry
    per (request, allocation record) pair; the adjacency is a map from
    process id to a duplicate-free neighbour list in `Set` insertion order. */
module WaitForGraph {
  import opened Seqs
  import opened Rag

  /** Process `from` waits for process `to`, which holds resource `via`. */
  datatype WaitForEdge = WaitForEdge(from: Id, to: Id, via: Id)

  /** A request blocks when its resource has no free instance. */
  predicate Blocked(s: State, q: Request) {
    AvailableInstances(s.resources, s.allocations, q.resId) <= 0
  }

  /** One edge from the requester to each listed holder, in holder order. */
  function HolderEdges(q: Request, holders: seq<Id>): (es: seq<WaitForEdge>)
    ensures |es| == |holders|
    ensures forall e :: e in es <==> exists h :: h in holders && e == WaitForEdge(q.procId, h, q.resId)
  {
    if holders == [] then []
    else
      var last := holders[|holders| - 1];
      assert holders == holders[..|holders| - 1] + [last];
      HolderEdges(q, holders[..|holders| - 1]) + [WaitForEdge(q.procId, last, q.resId)]
  }

  lemma HolderEdgesSnoc(q: Request, holders: seq<Id>, j: nat)
    requires j < |holders|
    ensures HolderEdges(q, holders[..j + 1]) == HolderEdges(q, holders[..j]) + [WaitForEdge(q.procId, holders[j], q.resId)]
  {
    assert holders[..j + 1][..j] == holders[..j];
  }

  /** The edges one request contributes: none unless it is blocked. */
  function RequestEdges(s: State, q: Request): seq<WaitForEdge> {
    if Blocked(s, q) then HolderEdges(q, HoldersOf(s.allocations, q.resId)) else []
  }

  /** The edges of the requests `reqs`, in request order. */
  function EdgesOf(s: State, reqs: seq<Request>): seq<WaitForEdge> {
    if reqs == [] then [] else EdgesOf(s, reqs[..|reqs| - 1]) + RequestEdges(s, reqs[|reqs| - 1])
  }

  /** The `waitForEdges` list of the whole store. */
  function WaitForEdges(s: State): seq<WaitForEdge> {
    EdgesOf(s, s.requests)
  }

  /** An edge is listed exactly when some blocked request of `from` on `via`
      meets an allocation record of `via` held by `to`. */
  lemma {:induction false} EdgesOfSpec(s: State, reqs: seq<Request>)
    ensures forall e :: e in EdgesOf(s, reqs) <==>
      exists q, a :: q in reqs && a in s.allocations && Blocked(s, q) && a.resId == q.resId &&
                     e == WaitForEdge(q.procId, a.procId, q.resId)
  {
    if reqs != [] {
      var init, q := reqs[..|reqs| - 1], reqs[|reqs| - 1];
      EdgesOfSpec(s, init);
      assert reqs == init + [q];
      var holders := HoldersOf(s.allocations, q.resId);
      forall e ensures e in RequestEdges(s, q) <==>
        exists a :: a in s.allocations && Blocked(s, q) && a.resId == q.resId &&
                    e == WaitForEdge(q.procId, a.procId, q.resId)
      {
        if e in RequestEdges(s, q) {
          var h :| h in holders && e == WaitForEdge(q.procId, h, q.resId);
        }
        if exists a :: a in s.allocations && Blocked(s, q) && a.resId == q.resId &&
                       e == WaitForEdge(q.procId, a.procId, q.resId) {
          var a :| a in s.allocations && Blocked(s, q) && a.resId == q.resId &&
                   e == WaitForEdge(q.procId, a.procId, q.resId);
          assert a.procId in holders;
        }
      }
    }
  }

  /** No-block-when-free: every edge goes through a resource with no free
      instance, and is backed by a request and an allocation record. */
  lemma WaitForEdgesSound(s: State)
    ensures forall e :: e in WaitForEdges(s) ==>
      && AvailableInstances(s.resources, s.allocations, e.via) <= 0
      && (exists q :: q in s.requests && q.procId == e.from && q.resId == e.via)
      && (exists a :: a in s.allocations && a.procId == e.to && a.resId == e.via)
  {
    EdgesOfSpec(s, s.requests);
  }

  /** The number of (blocked request, allocation record on its resource) pairs. */
  function BlockedPairs(s: State, reqs: seq<Request>): nat {
    if reqs == [] then 0
    else
      var q := reqs[|reqs| - 1];
      BlockedPairs(s, reqs[..|reqs| - 1]) + (if Blocked(s, q) then RecordsOn(s.allocations, q.resId) else 0)
  }

  /** The edge list holds exactly one entry per such pair: it is not deduplicated. */
  lemma {:induction false} WaitForEdgesCount(s: State, reqs: seq<Request>)
    ensures |EdgesOf(s, reqs)| == BlockedPairs(s, reqs)
  {
    if reqs != [] {
      WaitForEdgesCount(s, reqs[..|reqs| - 1]);
      HoldersOfCount(s.allocations, reqs[|reqs| - 1].resId);
    }
  }

  /** Each holder entry gives one edge, so an edge from the requester via the
      requested resource occurs once per occurrence of its target. */
  lemma {:induction false} HolderEdgesMultiplicity(q: Request, holders: seq<Id>)
    ensures forall e ::
      multiset(HolderEdges(q, holders))[e] == if e.from == q.procId && e.via == q.resId then multiset(holders)[e.to] else 0
  {
    if holders != [] {
      var init, last := holders[..|holders| - 1], holders[|holders| - 1];
      assert holders == init + [last];
      HolderEdgesMultiplicity(q, init);
    }
  }

  /** Number of blocked requests in `reqs` of process `p` on resource `r`. */
  function BlockedFrom(s: State, reqs: seq<Request>, p: Id, r: Id): nat {
    if reqs == [] then 0
    else
      var q := reqs[|reqs| - 1];
      BlockedFrom(s, reqs[..|reqs| - 1], p, r) + (if q.procId == p && q.resId == r && Blocked(s, q) then 1 else 0)
  }

  /** One entry per (blocked request, allocation record) pair: an edge occurs
      as often as there are blocked requests of its source on its resource
      times records of that resource held by its target. */
  lemma {:induction false} EdgesOfMultiplicity(s: State, reqs: seq<Request>)
    ensures forall e ::
      multiset(EdgesOf(s, reqs))[e] == BlockedFrom(s, reqs, e.from, e.via) * HeldBy(s.allocations, e.via, e.to)
  {
    if reqs != [] {
      var init, q := reqs[..|reqs| - 1], reqs[|reqs| - 1];
      assert reqs == init + [q];
      EdgesOfMultiplicity(s, init);
      HoldersOfMultiplicity(s.allocations, q.resId);
      HolderEdgesMultiplicity(q, HoldersOf(s.allocations, q.resId));
      forall e ensures multiset(EdgesOf(s, reqs))[e] == BlockedFrom(s, reqs, e.from, e.via) * HeldBy(s.allocations, e.via, e.to) {
        EdgeCountStep(s, init, q, e);
      }
    }
  }

  /** The inductive step of `EdgesOfMultiplicity` for one edge and one more request. */
  lemma EdgeCountStep(s: State, init: seq<Request>, q: Request, e: WaitForEdge)
    requires multiset(EdgesOf(s, init))[e] == BlockedFrom(s, init, e.from, e.via) * HeldBy(s.allocations, e.via, e.to)
    requires multiset(HoldersOf(s.allocations, q.resId))[e.to] == HeldBy(s.allocations, q.resId, e.to)
    requires multiset(RequestEdges(s, q))[e] ==
               if Blocked(s, q) && e.from == q.procId && e.via == q.resId then multiset(HoldersOf(s.allocations, q.resId))[e.to] else 0
    ensures multiset(EdgesOf(s, init + [q]))[e] == BlockedFrom(s, init + [q], e.from, e.via) * HeldBy(s.allocations, e.via, e.to)
  {
    assert (init + [q])[..|init|] == init;
    assert EdgesOf(s, init + [q]) == EdgesOf(s, init) + RequestEdges(s, q);
    var b, h := BlockedFrom(s, init, e.from, e.via), HeldBy(s.allocations, e.via, e.to);
    var r := multiset(RequestEdges(s, q))[e];
    assert multiset(EdgesOf(s, init + [q]))[e] == multiset(EdgesOf(s, init))[e] + r;
    if Blocked(s, q) && e.from == q.procId && e.via == q.resId {
      assert BlockedFrom(s, init + [q], e.from, e.via) == b + 1 && r == h;
    } else {
      assert BlockedFrom(s, init + [q], e.from, e.via) == b && r == 0;
    }
    CountStep(multiset(EdgesOf(s, init + [q]))[e], multiset(EdgesOf(s, init))[e], r, BlockedFrom(s, init + [q], e.from, e.via), b, h);
  }

  /** Arithmetic of one counting step: a product grows by `h` when its left factor grows by one. */
  lemma CountStep(total: nat, n: nat, r: nat, b2: nat, b: nat, h: nat)
    requires n == b * h && total == n + r
    requires (b2 == b + 1 && r == h) || (b2 == b && r == 0)
    ensures total == b2 * h
  {
    if b2 == b + 1 {
      assert b2 * h == b * h + h;
    }
  }

  /** Targets of the edges leaving `k`, in edge order, repeats included. */
  function Targets(edges: seq<WaitForEdge>, k: Id): (ts: seq<Id>)
    ensures forall h :: h in ts <==> exists e :: e in edges && e.from == k && e.to == h
  {
    if edges == [] then []
    else
      var e := edges[|edges| - 1];
      assert edges == edges[..|edges| - 1] + [e];
      Targets(edges[..|edges| - 1], k) + (if e.from == k then [e.to] else [])
  }

  function ProcessIds(ps: seq<Process>): set<Id> {
    set p | p in ps :: p.id
  }

  function Sources(edges: seq<WaitForEdge>): set<Id> {
    set e | e in edges :: e.from
  }

  /** The `wfg` map once the edges `edges` have been added: an entry for every
      process and every waiting process, holding the distinct targets of its
      edges in first-insertion order. */
  function Adjacency(ps: seq<Process>, edges: seq<WaitForEdge>): map<Id, seq<Id>> {
    map k | k in ProcessIds(ps) + Sources(edges) :: Dedup(Targets(edges, k))
  }

  /** Every process has an entry, so does every waiting process and nothing
      else; neighbour lists hold no duplicates, and `h` is a neighbour of `k`
      exactly when some edge goes from `k` to `h`. */
  lemma AdjacencySpec(ps: seq<Process>, edges: seq<WaitForEdge>)
    ensures var adj := Adjacency(ps, edges);
      && (forall p :: p in ps ==> p.id in adj)
      && (forall k :: k in adj <==> k in ProcessIds(ps) || exists e :: e in edges && e.from == k)
      && (forall k :: k in adj ==> NoDup(adj[k]))
      && (forall k, h :: k in adj ==> (h in adj[k] <==> exists e :: e in edges && e.from == k && e.to == h))
  {
    var adj := Adjacency(ps, edges);
    forall k | k in ProcessIds(ps) + Sources(edges) ensures k in adj {
    }
    forall k | k in adj ensures k in ProcessIds(ps) || exists e :: e in edges && e.from == k {
    }
  }

  /** Adding one edge to the adjacency, as `wfg.get(from).add(to)` does after
      creating the entry of `from` when it is missing. */
  function AddEdge(adj: map<Id, seq<Id>>, e: WaitForEdge): map<Id, seq<Id>> {
    var out := if e.from in adj then adj[e.from] else [];
    adj[e.from := if e.to in out then out else out + [e.to]]
  }

  lemma TargetsAppend(edges: seq<WaitForEdge>, e: WaitForEdge, k: Id)
    ensures Targets(edges + [e], k) == Targets(edges, k) + (if e.from == k then [e.to] else [])
  {
    assert (edges + [e])[..|edges|] == edges;
  }

  lemma {:induction false} TargetsNone(edges: seq<WaitForEdge>, k: Id)
    requires k !in Sources(edges)
    ensures Targets(edges, k) == []
  {
    if edges != [] {
      assert edges[|edges| - 1] in edges;
      assert Sources(edges[..|edges| - 1]) <= Sources(edges);
      TargetsNone(edges[..|edges| - 1], k);
    }
  }

  /** Building the adjacency edge by edge gives the adjacency of the whole list. */
  lemma AdjacencyAppend(ps: seq<Process>, edges: seq<WaitForEdge>, e: WaitForEdge)
    ensures Adjacency(ps, edges + [e]) == AddEdge(Adjacency(ps, edges), e)
  {
    var before, after := Adjacency(ps, edges), Adjacency(ps, edges + [e]);
    var step := AddEdge(before, e);
    AdjacencyKeysAppend(ps, edges, e);
    forall k | k in after ensures after[k] == step[k] {
      AdjacencyAppendAt(ps, edges, e, k);
    }
  }

  lemma AdjacencyKeysAppend(ps: seq<Process>, edges: seq<WaitForEdge>, e: WaitForEdge)
    ensures Adjacency(ps, edges + [e]).Keys == AddEdge(Adjacency(ps, edges), e).Keys
  {
    assert Sources(edges + [e]) == Sources(edges) + {e.from};
  }

  lemma AdjacencyAppendAt(ps: seq<Process>, edges: seq<WaitForEdge>, e: WaitForEdge, k: Id)
    requires k in ProcessIds(ps) + Sources(edges + [e])
    ensures k in AddEdge(Adjacency(ps, edges), e)
    ensures Adjacency(ps, edges + [e])[k] == AddEdge(Adjacency(ps, edges), e)[k]
  {
    var before := Adjacency(ps, edges);
    var ts := Targets(edges, k);
    TargetsAppend(edges, e, k);
    assert Adjacency(ps, edges + [e])[k] == Dedup(Targets(edges + [e], k));
    if k != e.from {
      assert Targets(edges + [e], k) == ts;
      if k !in ProcessIds(ps) {
        var x :| x in edges + [e] && x.from == k;
        assert x in edges;
      }
      assert k in before;
    } else {
      assert Targets(edges + [e], k) == ts + [e.to];
      assert (ts + [e.to])[..|ts|] == ts;
      if k in before {
        assert before[k] == Dedup(ts);
      } else {
        TargetsNone(edges, k);
      }
    }
  }

  /** Before any request is examined, every process has an empty entry. */
  lemma InitialAdjacency(ps: seq<Process>, adj: map<Id, seq<Id>>)
    requires adj.Keys == ProcessIds(ps)
    requires forall k :: k in adj ==> adj[k] == []
    ensures adj == Adjacency(ps, [])
  {
    assert Sources([]) == {};
  }

  lemma EdgesOfSnoc(s: State, reqs: seq<Request>, i: nat)
    requires i < |reqs|
    ensures EdgesOf(s, reqs[..i + 1]) == EdgesOf(s, reqs[..i]) + RequestEdges(s, reqs[i])
  {
    assert reqs[..i + 1][..i] == reqs[..i];
  }

  lemma SnocAssoc<T>(a: seq<T>, b: seq<T>, x: T)
    ensures (a + b) + [x] == a + (b + [x])
  {
  }

  /** `processes.forEach(p => wfg.set(p.id, new Set()))`: an empty entry per process. */
  method InitAdjacency(ps: seq<Process>) returns (adj: map<Id, seq<Id>>)
    ensures adj == Adjacency(ps, [])
  {
    adj := map[];
    for i := 0 to |ps|
      invariant adj.Keys == ProcessIds(ps[..i])
      invariant forall k :: k in adj ==> adj[k] == []
    {
      assert ps[..i + 1] == ps[..i] + [ps[i]];
      adj := adj[ps[i].id := []];
    }
    assert ps[..|ps|] == ps;
    InitialAdjacency(ps, adj);
  }

  /** `holders.forEach(h => ...)` for one blocked request `q`: create the entry
      of the requester when it is missing, add each holder to it, and push one
      edge per holder. */
  method AddHolderEdges(ps: seq<Process>, adj0: map<Id, seq<Id>>, edges0: seq<WaitForEdge>, q: Request, holders: seq<Id>)
    returns (adj: map<Id, seq<Id>>, edges: seq<WaitForEdge>)
    requires adj0 == Adjacency(ps, edges0)
    ensures edges == edges0 + HolderEdges(q, holders)
    ensures adj == Adjacency(ps, edges)
  {
    adj, edges := adj0, edges0;
    assert HolderEdges(q, holders[..0]) == [];
    for j := 0 to |holders|
      invariant edges == edges0 + HolderEdges(q, holders[..j])
      invariant adj == Adjacency(ps, edges)
    {
      var h := holders[j];
      var e := WaitForEdge(q.procId, h, q.resId);
      AdjacencyAppend(ps, edges, e);
      var out := if q.procId in adj then adj[q.procId] else [];
      if h !in out {
        out := out + [h];
      }
      adj := adj[q.procId := out];
      HolderEdgesSnoc(q, holders, j);
      SnocAssoc(edges0, HolderEdges(q, holders[..j]), e);
      edges := edges + [e];
    }
    assert holders[..|holders|] == holders;
  }

  /** `detectDeadlock`, the part building `wfg` and `waitForEdges`: the edges
      are those of the store, and the adjacency is built from them. */
  method BuildWaitFor(s: State) returns (adj: map<Id, seq<Id>>, edges: seq<WaitForEdge>)
    ensures edges == WaitForEdges(s)
    ensures adj == Adjacency(s.processes, edges)
  {
    adj := InitAdjacency(s.processes);
    edges := [];
    for i := 0 to |s.requests|
      invariant edges == EdgesOf(s, s.requests[..i])
      invariant adj == Adjacency(s.processes, edges)
    {
      var req := s.requests[i];
      EdgesOfSnoc(s, s.requests, i);
      if AvailableInstances(s.resources, s.allocations, req.resId) <= 0 {
        adj, edges := AddHolderEdges(s.processes, adj, edges, req, HoldersOf(s.allocations, req.resId));
      }
    }
    assert s.requests[..|s.requests|] == s.requests;
  }
}
