/** `detectDeadlock` as a whole: build the wait-for graph of the store, search
    it from every process in list order, and report the cycles found together
    with the edge list. The report is tied back to the store: a recorded cycle
    is a chain of processes each waiting on the next and returning to its
    start, and in a consistent store an empty cycle list means that no such
    chain exists. */
module Deadlock {
  import opened Seqs
  import opened Rag
  import opened EntityStore
  import opened WaitForGraph
  import opened CycleDetector

  /** The processes `p` waits on: the holder of every allocation record on a
      resource that `p` requests while it has no free instance. */
  ghost function WaitsOn(s: State, p: Id): set<Id> {
    set a | a in s.allocations &&
            (exists q :: q in s.requests && q.procId == p && q.resId == a.resId && Blocked(s, q)) :: a.procId
  }

  /** Each element of `c` waits on the next one. */
  ghost predicate WaitChain(s: State, c: seq<Id>) {
    forall i {:trigger WaitsOn(s, c[i])} :: 0 <= i < |c| - 1 ==> c[i + 1] in WaitsOn(s, c[i])
  }

  /** A deadlock: a chain of waiting processes that comes back to where it started. */
  ghost predicate HasDeadlock(s: State) {
    exists c :: |c| >= 2 && c[0] == c[|c| - 1] && WaitChain(s, c)
  }

  /** The report `detectDeadlock` hands to the editor. */
  datatype DeadlockInfo = DeadlockInfo(cycles: seq<seq<Id>>, waitForEdges: seq<WaitForEdge>)

  /** The ids of the processes, in list order: where the search starts. */
  function ProcessIdList(ps: seq<Process>): (ids: seq<Id>)
    ensures forall p :: p in ps ==> p.id in ids
    ensures |ids| == |ps| && forall i :: 0 <= i < |ps| ==> ids[i] == ps[i].id
  {
    if ps == [] then [] else [ps[0].id] + ProcessIdList(ps[1..])
  }

  /** The graph the search runs on is the store's wait relation: `h` is a
      neighbour of `p` in the adjacency built from the store's wait-for edges
      exactly when `p` waits on `h`. */
  lemma NeighborsAreWaits(s: State, p: Id, h: Id)
    ensures h in Neighbors(Adjacency(s.processes, WaitForEdges(s)), p) <==> h in WaitsOn(s, p)
  {
    var edges := WaitForEdges(s);
    var adj := Adjacency(s.processes, edges);
    AdjacencySpec(s.processes, edges);
    EdgesOfSpec(s, s.requests);
    if h in WaitsOn(s, p) {
      var a :| a in s.allocations && a.procId == h &&
               exists q :: q in s.requests && q.procId == p && q.resId == a.resId && Blocked(s, q);
      var q :| q in s.requests && q.procId == p && q.resId == a.resId && Blocked(s, q);
      assert WaitForEdge(p, h, q.resId) in edges;
    }
    if h in Neighbors(adj, p) {
      var e :| e in edges && e.from == p && e.to == h;
      var q, a :| q in s.requests && a in s.allocations && Blocked(s, q) && a.resId == q.resId &&
                  e == WaitForEdge(q.procId, a.procId, q.resId);
      assert a.procId in WaitsOn(s, p);
    }
  }

  /** A walk in the detector's graph is exactly a chain of waiting processes. */
  lemma WalkIsChain(s: State, c: seq<Id>)
    ensures IsWalk(Adjacency(s.processes, WaitForEdges(s)), c) <==> WaitChain(s, c)
  {
    var adj := Adjacency(s.processes, WaitForEdges(s));
    forall i | 0 <= i < |c| - 1
      ensures c[i + 1] in Neighbors(adj, c[i]) <==> c[i + 1] in WaitsOn(s, c[i])
    {
      NeighborsAreWaits(s, c[i], c[i + 1]);
    }
  }

  /** A process that waits on another has a blocked request; in a consistent
      store it is one of the processes. */
  lemma WaiterRequests(s: State, p: Id, h: Id)
    requires h in WaitsOn(s, p)
    ensures exists q :: q in s.requests && q.procId == p && Blocked(s, q)
    ensures Invariant(s) ==> HasProcess(s.processes, p)
  {
    var a :| a in s.allocations && a.procId == h &&
             exists q :: q in s.requests && q.procId == p && q.resId == a.resId && Blocked(s, q);
    var q :| q in s.requests && q.procId == p && q.resId == a.resId && Blocked(s, q);
    assert q in s.requests;
  }

  /** Every member of a closed chain is waiting on a blocked request (the
      processes `cycleProcs` highlights are all stuck). */
  lemma ChainMembersWait(s: State, c: seq<Id>)
    requires |c| >= 2 && c[0] == c[|c| - 1] && WaitChain(s, c)
    ensures forall x :: x in c ==> exists q :: q in s.requests && q.procId == x && Blocked(s, q)
    ensures Invariant(s) ==> forall x :: x in c ==> HasProcess(s.processes, x)
  {
    forall k | 0 <= k < |c|
      ensures exists q :: q in s.requests && q.procId == c[k] && Blocked(s, q)
      ensures Invariant(s) ==> HasProcess(s.processes, c[k])
    {
      var j := if k < |c| - 1 then k else 0;
      assert c[j] == c[k];
      WaiterRequests(s, c[j], c[j + 1]);
    }
  }

  /** `cycleProcs`: every process highlighted for occurring in a reported
      cycle is waiting on a blocked request, and in a consistent store it is
      one of the processes. */
  lemma HighlightedAreWaiting(s: State, cycles: seq<seq<Id>>)
    requires forall c :: c in cycles ==> |c| >= 2 && c[0] == c[|c| - 1] && WaitChain(s, c)
    ensures forall x :: x in CycleProcs(cycles) ==>
      (exists q :: q in s.requests && q.procId == x && Blocked(s, q)) &&
      (Invariant(s) ==> HasProcess(s.processes, x))
  {
    forall x | x in CycleProcs(cycles)
      ensures (exists q :: q in s.requests && q.procId == x && Blocked(s, q)) &&
              (Invariant(s) ==> HasProcess(s.processes, x))
    {
      var c :| c in cycles && x in c;
      ChainMembersWait(s, c);
    }
  }

  /** In a consistent store, a search that reached every process without
      recording a cycle rules out a deadlock: every chain starts at a process. */
  lemma NoCycleNoDeadlock(s: State, reached: set<Id>)
    requires Invariant(s)
    requires forall p :: p in s.processes ==> p.id in reached
    requires forall c :: IsClosedWalk(Adjacency(s.processes, WaitForEdges(s)), c) ==>
                         forall x :: x in c ==> x !in reached
    ensures !HasDeadlock(s)
  {
    forall c | |c| >= 2 && c[0] == c[|c| - 1] ensures !WaitChain(s, c) {
      if WaitChain(s, c) {
        WalkIsChain(s, c);
        WaiterRequests(s, c[0], c[1]);
        var p :| p in s.processes && p.id == c[0];
        assert IsClosedWalk(Adjacency(s.processes, WaitForEdges(s)), c);
      }
    }
  }

  /** `detectDeadlock`. Every reported cycle is a closed chain of waiting
      processes repeating none but its end; reporting a cycle means there is a
      deadlock, and in a consistent store reporting none means there is none. */
  method DetectDeadlock(s: State) returns (info: DeadlockInfo)
    ensures info.waitForEdges == WaitForEdges(s)
    ensures forall c :: c in info.cycles ==>
      |c| >= 2 && c[0] == c[|c| - 1] && WaitChain(s, c) && NoDup(c[..|c| - 1])
    ensures info.cycles != [] ==> HasDeadlock(s)
    ensures Invariant(s) ==> (info.cycles == [] <==> !HasDeadlock(s))
    ensures forall x :: x in CycleProcs(info.cycles) ==>
      (exists q :: q in s.requests && q.procId == x && Blocked(s, q)) &&
      (Invariant(s) ==> HasProcess(s.processes, x))
  {
    var adj, edges := BuildWaitFor(s);
    var cycles, reached, entries := Detect(adj, ProcessIdList(s.processes));
    info := DeadlockInfo(cycles, edges);
    forall c | c in cycles ensures WaitChain(s, c) {
      WalkIsChain(s, c);
    }
    HighlightedAreWaiting(s, cycles);
    if cycles != [] {
      assert cycles[0] in cycles;
    } else if Invariant(s) {
      NoCycleNoDeadlock(s, reached);
    }
  }

  /** One process holding the only instance of one resource, with no requests:
      no wait-for edge and no deadlock, so the detector reports no cycle. */
  lemma NoDeadlockBaseline(p: Id, r: Id)
    ensures var s := State([Process(p, "P1")], [Resource(r, "R1", 1)], [Allocation(r, p, 1)], []);
      Invariant(s) && WaitForEdges(s) == [] && !HasDeadlock(s)
  {
    var s := State([Process(p, "P1")], [Resource(r, "R1", 1)], [Allocation(r, p, 1)], []);
    assert s.processes[0] in s.processes && s.resources[0] in s.resources;
    forall x ensures WaitsOn(s, x) == {} {
    }
    forall c | |c| >= 2 ensures !WaitChain(s, c) {
      assert c[1] !in WaitsOn(s, c[0]);
    }
  }

  /** Two processes each holding one single-instance resource and requesting
      the other's. */
  function ClassicState(p1: Id, p2: Id, r1: Id, r2: Id): State {
    State([Process(p1, "P1"), Process(p2, "P2")],
          [Resource(r1, "R1", 1), Resource(r2, "R2", 1)],
          [Allocation(r1, p1, 1), Allocation(r2, p2, 1)],
          [Request(p1, r2, 1), Request(p2, r1, 1)])
  }

  /** In that state both resources are fully held and both requests give a
      wait-for edge, the requester's to the holder's. */
  lemma ClassicWaitForEdges(p1: Id, p2: Id, r1: Id, r2: Id)
    requires r1 != r2
    ensures var s := ClassicState(p1, p2, r1, r2);
      && AvailableInstances(s.resources, s.allocations, r1) == 0
      && AvailableInstances(s.resources, s.allocations, r2) == 0
      && WaitForEdges(s) == [WaitForEdge(p1, p2, r2), WaitForEdge(p2, p1, r1)]
  {
    var s := ClassicState(p1, p2, r1, r2);
    assert FindResource(s.resources, r1) == Some(s.resources[0]);
    assert FindResource(s.resources, r2) == Some(s.resources[1]);
    assert s.allocations[1..] == [Allocation(r2, p2, 1)] && s.allocations[1..][1..] == [];
    assert TotalAllocated(s.allocations[1..], r1) == 0;
    assert TotalAllocated(s.allocations[1..], r2) == 1;
    assert HoldersOf(s.allocations[1..], r1) == [];
    assert HoldersOf(s.allocations, r1) == [p1];
    assert HoldersOf(s.allocations[1..], r2) == [p2];
    assert HoldersOf(s.allocations, r2) == [p2];
    assert Blocked(s, s.requests[0]) && Blocked(s, s.requests[1]);
    assert [p2][..0] == [] && [p1][..0] == [];
    assert RequestEdges(s, s.requests[0]) == [WaitForEdge(p1, p2, r2)];
    assert RequestEdges(s, s.requests[1]) == [WaitForEdge(p2, p1, r1)];
    assert s.requests[..1] == [s.requests[0]] && s.requests[..1][..0] == [];
    assert EdgesOf(s, s.requests[..1]) == EdgesOf(s, []) + RequestEdges(s, s.requests[0]);
    assert WaitForEdges(s) == EdgesOf(s, s.requests[..1]) + RequestEdges(s, s.requests[1]);
  }

  /** The state is consistent, and the two processes wait on each other: a
      deadlock, which the detector therefore reports. */
  lemma ClassicTwoProcessDeadlock(p1: Id, p2: Id, r1: Id, r2: Id)
    requires r1 != r2
    ensures Invariant(ClassicState(p1, p2, r1, r2))
    ensures WaitChain(ClassicState(p1, p2, r1, r2), [p1, p2, p1])
    ensures HasDeadlock(ClassicState(p1, p2, r1, r2))
  {
    var s := ClassicState(p1, p2, r1, r2);
    ClassicWaitForEdges(p1, p2, r1, r2);
    assert s.processes[0] in s.processes && s.processes[1] in s.processes;
    assert s.resources[0] in s.resources && s.resources[1] in s.resources;
    assert s.allocations[1..] == [Allocation(r2, p2, 1)] && s.allocations[1..][1..] == [];
    assert TotalAllocated(s.allocations[1..], r1) == 0;
    assert TotalAllocated(s.allocations[1..], r2) == 1;
    assert Blocked(s, s.requests[0]) && Blocked(s, s.requests[1]);
    assert s.allocations[1] in s.allocations && s.requests[0] in s.requests;
    assert p2 in WaitsOn(s, p1);
    assert s.allocations[0] in s.allocations && s.requests[1] in s.requests;
    assert p1 in WaitsOn(s, p2);
    var c := [p1, p2, p1];
    assert WaitChain(s, c);
  }

  /** A resource with two instances, one of them held: a request for it is
      not blocked, gives no wait-for edge, and there is no deadlock. */
  lemma SelfSatisfyingResource(p1: Id, p2: Id, r: Id)
    ensures var s := State([Process(p1, "P1"), Process(p2, "P2")], [Resource(r, "R1", 2)],
                           [Allocation(r, p1, 1)], [Request(p2, r, 1)]);
      && Invariant(s)
      && AvailableInstances(s.resources, s.allocations, r) == 1
      && WaitForEdges(s) == []
      && !HasDeadlock(s)
  {
    var s := State([Process(p1, "P1"), Process(p2, "P2")], [Resource(r, "R1", 2)],
                   [Allocation(r, p1, 1)], [Request(p2, r, 1)]);
    assert s.processes[0] in s.processes && s.processes[1] in s.processes;
    assert s.resources[0] in s.resources;
    assert s.requests[..0] == [];
    assert WaitForEdges(s) == EdgesOf(s, []) + RequestEdges(s, s.requests[0]);
    forall x ensures WaitsOn(s, x) == {} {
    }
    forall c | |c| >= 2 ensures !WaitChain(s, c) {
      assert c[1] !in WaitsOn(s, c[0]);
    }
  }
}
