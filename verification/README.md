# Resource-allocation-graph simulator: verified model of the core

The simulator is a single React component. It edits a resource allocation
graph of processes and resources, with allocation records ("resource R gives
`count` instances to process P") and request records ("process P waits for
`count` instances of R"). On demand it looks for deadlocks. This project
models the component's non-visual core in Dafny and proves what that core
promises:

- **Entity store** (`store.dfy`, module `EntityStore`):
  - adding a process or a resource with the next positional label;
  - resolving a two-click edge into a (resource, process) pair, in either
    click order;
  - appending an allocation (only when the resource has a free instance,
    always with count 1) or a request (never gated);
  - deleting a node, which cascades to every record naming it;
  - deleting one allocation or request record by its row index.

  Each operation is a function from the old `State` to the new one, since
  every React state setter builds a new list. The class `Store` holds the
  four lists as fields and its methods reassign them. Every operation keeps
  the store invariant: records link a known resource with a known process,
  counts are non-negative, and no resource has more allocated than its
  capacity.
- **Availability calculator** (`rag.dfy`, module `Rag`): `totalAllocated`,
  `availableInstances` and `holdersOfResource`, plus the endpoint resolution
  of the two edge modes.
- **Wait-for graph builder** (`waitfor.dfy`, module `WaitForGraph`): the
  first half of `detectDeadlock`. It is an imperative method with loops over
  the processes, the requests and the holders, proved equal to a functional
  definition:
  - the edge list has one entry per (blocked request, allocation record on
    its resource) pair;
  - the adjacency is a map from process id to a duplicate-free neighbour
    list, kept in the insertion order of a JavaScript `Set`.
- **Cycle detector** (`cycles.dfy`, module `CycleDetector`): the recursive
  `dfs` as a class `CycleSearch`. The class holds the `visited` set, the
  `stack` set and the cycle list that all start nodes share. The search
  proves that:
  - every recorded cycle is a closed walk that repeats no node except its
    closing one;
  - each node is entered at most once, and the recursion terminates;
  - when no cycle is recorded, no closed walk passes through any node the
    search reached.

  `Dfs` dispatches on the two checks at the head of `dfs`. Its branches
  are the methods `Record` (the stack check) and `Explore` (marking the node
  and recursing), and the loop over the neighbours is the method
  `VisitNeighbors`.

  The same module has the unused `normalizedCycles` helper, as a loop proved
  equal to a recursive definition, and `cycleProcs`.
- **Deadlock detection as a whole** (`detection.dfy`, module `Deadlock`):
  `detectDeadlock` applied to a store state.
  - A reported cycle is a chain of processes each waiting on the next.
    Waiting here means: a request on a resource with no free instance,
    which another process holds.
  - A reported cycle therefore means a deadlock.
  - In a consistent store, an empty report means there is no deadlock.
  - The scenarios "one holder, no requests", "two processes each holding
    what the other requests" and "a request on a resource with a free
    instance" are proved about the functional model.

`seqs.dfy` (module `Seqs`) holds the sequence helpers that stand in for
`filter`, `indexOf` and `Set` insertion.

Facts about the component that shape the model:
- The component always appends an allocation with count 1, and only when
  `availableInstances(resId) > 0` (ResourceAllocationSimulator.jsx:128-129).
- Delete treats any id that is not a process as a resource id
  (ResourceAllocationSimulator.jsx:152-161). In a consistent store no record
  names an id that is neither a process nor a resource, so deleting such an
  id leaves the lists unchanged.
- Nothing in the component changes a resource's capacity after it is
  created.
- `handleNodeClick` (ResourceAllocationSimulator.jsx:109) is defined, but
  nothing calls it. The process and resource nodes only receive
  `startDrag` as their mouse handler (ResourceAllocationSimulator.jsx:340,
  343). In the component as written, the allocation, request and
  delete-node operations therefore cannot be reached from the canvas, and
  records arrive only through JSON import. The model states what those
  operations do when they are invoked.

Identifiers are an abstract type that can only be compared for equality.
The `uid` generator and its `P_`/`R_` prefixes become parameters of the
operations that create entities. `DisjointIds` states the consequence of
the prefixes: no id names both a process and a resource.

## Model

| member | source | states |
|---|---|---|
| Rag.FindResource | rag-simulator/src/ResourceAllocationSimulator.jsx:104 | the lookup finds a resource exactly when one has that id, and then it is the first resource in list order with that id |
| Rag.TotalAllocated | rag-simulator/src/ResourceAllocationSimulator.jsx:99-101 | the total is 0 when no record names the resource, and non-negative when all counts are |
| Rag.AvailableInstancesSpec | rag-simulator/src/ResourceAllocationSimulator.jsx:103-107 | an unknown resource has 0 available; a known one has the capacity of the first resource with that id minus the sum of the counts of the records naming it |
| Rag.TotalAllocatedAppend | rag-simulator/src/ResourceAllocationSimulator.jsx:99-101 | appending a record raises only the total of the resource it names, by its count |
| Rag.TotalAllocatedSubsequence | rag-simulator/src/ResourceAllocationSimulator.jsx:99-101 | removing records with non-negative counts never raises a total |
| Rag.HoldersOf | rag-simulator/src/ResourceAllocationSimulator.jsx:165-167 | a process is listed exactly when some allocation record of that resource names it |
| Rag.HoldersOfCount | rag-simulator/src/ResourceAllocationSimulator.jsx:165-167 | the holder list is as long as the number of records on the resource |
| Rag.HoldersOfMultiplicity | rag-simulator/src/ResourceAllocationSimulator.jsx:165-167 | each process occurs in the holder list exactly as often as there are records of that resource naming it, duplicates kept |
| Rag.ResolveAllocation | rag-simulator/src/ResourceAllocationSimulator.jsx:120-127 | a pair resolves exactly when one end is a resource and the other a process, in either click order; the result is that (resource, process) pair, and when the source is a resource and the destination a process that order wins |
| Rag.ResolveRequest | rag-simulator/src/ResourceAllocationSimulator.jsx:139-146 | the same for the request mode; when the source is a process and the destination a resource that order wins |
| Rag.ResolveOrderIndependent | rag-simulator/src/ResourceAllocationSimulator.jsx:120-146 | with disjoint process and resource ids, click order does not matter and both modes resolve a pair alike |
| Seqs.Drop | rag-simulator/src/ResourceAllocationSimulator.jsx:154-160 | the key filter keeps exactly the elements whose key differs, in their original order |
| Seqs.DropCounts | rag-simulator/src/ResourceAllocationSimulator.jsx:154-160 | every copy of an element whose key differs survives, and no copy of any other: identical records all survive or all go |
| Seqs.RemoveAt | rag-simulator/src/ResourceAllocationSimulator.jsx:284 | the index filter removes exactly the element at a valid index and shifts the rest down; any other index leaves the list as it is |
| Seqs.IndexOf | rag-simulator/src/ResourceAllocationSimulator.jsx:190 | the result is the first position of the element, or -1 when it is absent |
| Seqs.Dedup | rag-simulator/src/ResourceAllocationSimulator.jsx:179 | insertion into a `Set` keeps the same members without duplicates |
| EntityStore.Digits | rag-simulator/src/ResourceAllocationSimulator.jsx:90 | the positional label's number is a decimal numeral without leading zero whose value is the given count |
| EntityStore.Initial | rag-simulator/src/ResourceAllocationSimulator.jsx:33-42 | the start state (one process `P1`, one resource `R1` of capacity 1, no records) satisfies the invariant |
| EntityStore.WithProcess | rag-simulator/src/ResourceAllocationSimulator.jsx:89-92 | exactly one process is appended, with the given id and the label `P` followed by the new count; nothing else changes |
| EntityStore.WithResource | rag-simulator/src/ResourceAllocationSimulator.jsx:94-97 | exactly one resource of capacity 1 labelled `R<n>` is appended; a fresh id then has 1 minus its total available, and a repeated id keeps its old availability |
| EntityStore.FindResourceAppend | rag-simulator/src/ResourceAllocationSimulator.jsx:104 | a lookup in a list grown at the end finds the old match when there was one, else the new element when its id matches |
| EntityStore.FindResourceDrop | rag-simulator/src/ResourceAllocationSimulator.jsx:158 | deleting the resources with one id does not change the lookup of any other id |
| EntityStore.WithAllocationEdge | rag-simulator/src/ResourceAllocationSimulator.jsx:114-131 | a record is appended exactly when the pair resolves and the resource has an instance free; it links the two clicked nodes with count 1 and is exactly the resolved (resource, process) pair of `ResolveAllocation`; otherwise the allocations are unchanged; the other lists never change |
| EntityStore.WithRequestEdge | rag-simulator/src/ResourceAllocationSimulator.jsx:133-149 | a record with count 1 is appended exactly when the pair links a resource and a process, with no capacity check, and is exactly the resolved (process, resource) pair of `ResolveRequest`; otherwise the requests are unchanged |
| EntityStore.WithoutNode | rag-simulator/src/ResourceAllocationSimulator.jsx:151-162 | a process id removes that process and exactly the records it takes part in; any other id removes the resources and records naming it; survivors keep their order |
| EntityStore.WithoutNodeCounts | rag-simulator/src/ResourceAllocationSimulator.jsx:151-162 | the cascade removes every copy of a record naming the deleted node and keeps every copy of each other record, duplicates included |
| EntityStore.WithoutAllocation | rag-simulator/src/ResourceAllocationSimulator.jsx:284 | removes exactly allocation row `i`; other lists unchanged |
| EntityStore.WithoutRequest | rag-simulator/src/ResourceAllocationSimulator.jsx:295 | removes exactly request row `i`; other lists unchanged |
| EntityStore.AddProcessKeepsValid | rag-simulator/src/ResourceAllocationSimulator.jsx:89-92 | adding a process keeps the store invariant |
| EntityStore.AddResourceKeepsValid | rag-simulator/src/ResourceAllocationSimulator.jsx:94-97 | adding a resource keeps the store invariant, even with a repeated id |
| EntityStore.AppendResourceKeepsValid | rag-simulator/src/ResourceAllocationSimulator.jsx:96 | appending any resource of non-negative capacity keeps the invariant |
| EntityStore.UnknownResourceUnallocated | rag-simulator/src/ResourceAllocationSimulator.jsx:99-101 | in a consistent store an id that names no resource has a total of 0 |
| EntityStore.AllocationEdgeKeepsValid | rag-simulator/src/ResourceAllocationSimulator.jsx:128-129 | the capacity-gated allocation keeps every total within its capacity |
| EntityStore.AppendAllocationKeepsValid | rag-simulator/src/ResourceAllocationSimulator.jsx:128-129 | any linked record whose count lies between 0 and the available instances keeps the invariant |
| EntityStore.RequestEdgeKeepsValid | rag-simulator/src/ResourceAllocationSimulator.jsx:147 | the ungated request keeps the invariant |
| EntityStore.DeleteNodeKeepsValid | rag-simulator/src/ResourceAllocationSimulator.jsx:151-162 | the cascading delete leaves no record naming a removed node and keeps capacities |
| EntityStore.DeleteProcessKeepsValid | rag-simulator/src/ResourceAllocationSimulator.jsx:153-156 | deleting a process keeps the invariant |
| EntityStore.DeleteResourceKeepsValid | rag-simulator/src/ResourceAllocationSimulator.jsx:157-161 | deleting a resource keeps the invariant |
| EntityStore.RemoveAllocationKeepsValid | rag-simulator/src/ResourceAllocationSimulator.jsx:284 | removing an allocation row keeps the invariant |
| EntityStore.RemoveRequestKeepsValid | rag-simulator/src/ResourceAllocationSimulator.jsx:295 | removing a request row keeps the invariant |
| EntityStore.AvailableNonNegative | rag-simulator/src/ResourceAllocationSimulator.jsx:103-107 | in a consistent store no resource reports a negative availability |
| EntityStore.Store.constructor | rag-simulator/src/ResourceAllocationSimulator.jsx:33-42 | the store starts in the initial state, which is consistent |
| EntityStore.Store.AddProcess | rag-simulator/src/ResourceAllocationSimulator.jsx:89-92 | the new lists are `WithProcess` of the old ones, and consistency is kept |
| EntityStore.Store.AddResource | rag-simulator/src/ResourceAllocationSimulator.jsx:94-97 | the new lists are `WithResource` of the old ones, and consistency is kept |
| EntityStore.Store.AddAllocationEdge | rag-simulator/src/ResourceAllocationSimulator.jsx:114-131 | the new lists are `WithAllocationEdge` of the old ones; the result says whether a record was added; consistency is kept |
| EntityStore.Store.AddRequestEdge | rag-simulator/src/ResourceAllocationSimulator.jsx:133-149 | the new lists are `WithRequestEdge` of the old ones; the result says whether a record was added; consistency is kept |
| EntityStore.Store.DeleteNode | rag-simulator/src/ResourceAllocationSimulator.jsx:151-162 | the new lists are `WithoutNode` of the old ones, and consistency is kept |
| EntityStore.Store.DeleteAllocation | rag-simulator/src/ResourceAllocationSimulator.jsx:284 | the new lists are `WithoutAllocation` of the old ones, and consistency is kept |
| EntityStore.Store.DeleteRequest | rag-simulator/src/ResourceAllocationSimulator.jsx:295 | the new lists are `WithoutRequest` of the old ones, and consistency is kept |
| WaitForGraph.HolderEdges | rag-simulator/src/ResourceAllocationSimulator.jsx:177-181 | as many edges as holder entries; an edge is listed exactly when it goes from the requester to some holder via the requested resource |
| WaitForGraph.HolderEdgesMultiplicity | rag-simulator/src/ResourceAllocationSimulator.jsx:177-181 | an edge from the requester via the requested resource occurs exactly as often as its target occurs among the holders; no other edge occurs |
| WaitForGraph.EdgesOfSpec | rag-simulator/src/ResourceAllocationSimulator.jsx:174-182 | an edge is listed exactly when a blocked request of its source meets an allocation record of its target on the same resource |
| WaitForGraph.WaitForEdgesSound | rag-simulator/src/ResourceAllocationSimulator.jsx:175 | every edge goes through a resource with no free instance: a request on a resource with a free instance yields no edge |
| WaitForGraph.WaitForEdgesCount | rag-simulator/src/ResourceAllocationSimulator.jsx:174-181 | the list is as long as the number of (blocked request, allocation record on its resource) pairs, so it is not deduplicated |
| WaitForGraph.EdgesOfMultiplicity | rag-simulator/src/ResourceAllocationSimulator.jsx:174-182 | each edge occurs exactly (blocked requests of its source on its resource) times (records of that resource held by its target) times |
| WaitForGraph.Targets | rag-simulator/src/ResourceAllocationSimulator.jsx:177-180 | a process is a target of `k` exactly when some edge goes from `k` to it |
| WaitForGraph.AdjacencySpec | rag-simulator/src/ResourceAllocationSimulator.jsx:170-182 | every process has an entry even without edges; the only other entries are waiting processes; neighbour lists have no duplicates; `h` is a neighbour of `k` exactly when an edge goes from `k` to `h` |
| WaitForGraph.AdjacencyAppend | rag-simulator/src/ResourceAllocationSimulator.jsx:178-179 | adding one edge, creating the entry when it is missing and inserting the target if absent, gives the adjacency of the longer edge list |
| WaitForGraph.InitialAdjacency | rag-simulator/src/ResourceAllocationSimulator.jsx:171 | an empty entry for each process is the adjacency of no edges |
| WaitForGraph.InitAdjacency | rag-simulator/src/ResourceAllocationSimulator.jsx:170-171 | the loop over the processes builds the adjacency of no edges |
| WaitForGraph.AddHolderEdges | rag-simulator/src/ResourceAllocationSimulator.jsx:176-181 | the loop over the holders appends one edge per holder and keeps the adjacency equal to that of the edges so far |
| WaitForGraph.BuildWaitFor | rag-simulator/src/ResourceAllocationSimulator.jsx:169-182 | the edge list is the store's wait-for edge list and the map is its adjacency |
| CycleDetector.CycleFromPath | rag-simulator/src/ResourceAllocationSimulator.jsx:189-191 | re-entering a stacked node: its first index lies before the end of the path, and the suffix from there is a cycle |
| CycleDetector.SuffixIsCycle | rag-simulator/src/ResourceAllocationSimulator.jsx:191 | the slice of a duplicate-free walk from an earlier occurrence of its last node is a closed walk repeating only its end |
| CycleDetector.ClosedWalkUnranked | rag-simulator/src/ResourceAllocationSimulator.jsx:194-199 | no closed walk passes through a finished node while ranks fall along every edge out of finished nodes |
| CycleDetector.RecordKeeps | rag-simulator/src/ResourceAllocationSimulator.jsx:191 | recording a cycle keeps the search invariant |
| CycleDetector.EnterKeeps | rag-simulator/src/ResourceAllocationSimulator.jsx:195-196 | marking an unvisited node visited and stacked keeps the search invariant and counts one entry |
| CycleDetector.FinishKeeps | rag-simulator/src/ResourceAllocationSimulator.jsx:199 | unstacking a node whose successors are all visited gives it the next finishing rank and keeps the search invariant |
| CycleDetector.CycleSearch.constructor | rag-simulator/src/ResourceAllocationSimulator.jsx:184-186 | the search starts with empty `visited`, `stack` and cycle list, over every start node and edge target |
| CycleDetector.CycleSearch.Dfs | rag-simulator/src/ResourceAllocationSimulator.jsx:188-200 | `dfs` terminates, keeps the search invariant and the stack, leaves `node` visited, and keeps the cycles recorded before it as a prefix of the list; re-entering a stacked node appends exactly the path from its first occurrence to the end as a new cycle; a node already finished changes neither the cycles nor the visited set |
| CycleDetector.CycleSearch.Record | rag-simulator/src/ResourceAllocationSimulator.jsx:189-192 | the stack check appends exactly `path.slice(path.indexOf(node))`, and it is a cycle |
| CycleDetector.CycleSearch.Explore | rag-simulator/src/ResourceAllocationSimulator.jsx:194-199 | entering an unvisited node, searching its neighbours and unstacking it keeps the invariant, leaves the stack as it was and only appends to the cycle list |
| CycleDetector.CycleSearch.VisitNeighbors | rag-simulator/src/ResourceAllocationSimulator.jsx:197-198 | after the neighbour loop every neighbour is visited, and finished unless a cycle has been recorded; the cycle list only grows at its end |
| CycleDetector.Detect | rag-simulator/src/ResourceAllocationSimulator.jsx:184-202 | every recorded cycle is a cycle of the graph; each node is entered at most once; every start and everything reachable from it is reached; with no cycle recorded, no closed walk touches a reached node |
| CycleDetector.NormalizedSubsequence | rag-simulator/src/ResourceAllocationSimulator.jsx:233-241 | `normalizedCycles` returns a subsequence of its input |
| CycleDetector.NormalizedKeys | rag-simulator/src/ResourceAllocationSimulator.jsx:233-241 | every key of the input occurs in the output and no other |
| CycleDetector.NormalizedDistinct | rag-simulator/src/ResourceAllocationSimulator.jsx:233-241 | no two kept cycles share a sorted-node key |
| CycleDetector.NormalizedKeepsFirst | rag-simulator/src/ResourceAllocationSimulator.jsx:233-241 | each kept cycle is the first input cycle with its key |
| CycleDetector.KeepsFirstStep | rag-simulator/src/ResourceAllocationSimulator.jsx:237-238 | one step of the `seen` check keeps the first-with-its-key property |
| CycleDetector.NormalizeCycles | rag-simulator/src/ResourceAllocationSimulator.jsx:233-241 | the loop with its `seen` set returns the recursive definition's result |
| Deadlock.ProcessIdList | rag-simulator/src/ResourceAllocationSimulator.jsx:202 | the search starts from exactly the process ids, one per process, in list order |
| Deadlock.NeighborsAreWaits | rag-simulator/src/ResourceAllocationSimulator.jsx:174-182 | `h` is a neighbour of `p` in the built graph exactly when `p` has a blocked request on a resource `h` holds |
| Deadlock.WalkIsChain | rag-simulator/src/ResourceAllocationSimulator.jsx:174-198 | a walk in the built graph is exactly a chain of processes each waiting on the next |
| Deadlock.WaiterRequests | rag-simulator/src/ResourceAllocationSimulator.jsx:174-180 | a waiting process has a blocked request, and in a consistent store it is a process |
| Deadlock.ChainMembersWait | rag-simulator/src/ResourceAllocationSimulator.jsx:174-180 | every member of a closed chain has a blocked request |
| Deadlock.HighlightedAreWaiting | rag-simulator/src/ResourceAllocationSimulator.jsx:243 | every id in `cycleProcs` of reported cycles has a blocked request, and in a consistent store is a process |
| Deadlock.NoCycleNoDeadlock | rag-simulator/src/ResourceAllocationSimulator.jsx:202 | in a consistent store, a search from every process that records no cycle rules out a deadlock |
| Deadlock.DetectDeadlock | rag-simulator/src/ResourceAllocationSimulator.jsx:169-203 | the report's edges are the store's wait-for edges; each cycle is a closed chain of waiting processes repeating only its end; a cycle is reported only under a deadlock, and in a consistent store always under one |
| Deadlock.NoDeadlockBaseline | rag-simulator/src/ResourceAllocationSimulator.jsx:174-182 | one process holding the only instance of one resource, with no requests: consistent, no edge, no deadlock |
| Deadlock.ClassicWaitForEdges | rag-simulator/src/ResourceAllocationSimulator.jsx:174-182 | two processes each holding the resource the other requests: both resources have 0 available and both requests give an edge |
| Deadlock.ClassicTwoProcessDeadlock | rag-simulator/src/ResourceAllocationSimulator.jsx:169-203 | that state is consistent and `[P1, P2, P1]` is a deadlock chain, so the detector reports a cycle |
| Deadlock.SelfSatisfyingResource | rag-simulator/src/ResourceAllocationSimulator.jsx:175 | a request on a capacity-2 resource with one instance held is not blocked: 1 available, no edge, no deadlock |

## Left out

- Rendering, node dragging, SVG edges and `getCenter` geometry: presentation only.
- The `mode`, `selectedId` and `edgeStep` click protocol: an edge operation takes the resolved pair of clicked ids.
- `uid`: random, so ids are parameters of the operations that create entities.
- The `x`/`y` positions of nodes: they only place shapes on the canvas. The `label` field is called `name`, since `label` is a Dafny keyword.
- JSON export and import: file I/O. Import does not validate, so the store invariant is claimed only for states that the store operations reach.
- Deadlock.DetectDeadlock: "no cycle reported means no deadlock" is proved only for consistent stores. Without the invariant, a chain through ids that are not processes is never searched from.
- Deadlock.ClassicTwoProcessDeadlock: proves that the detector reports at least one cycle for the two-process deadlock, not that it reports exactly one. Counting the cycles would need the search as a function of its input rather than a method.
- CycleDetector.Key: compares the multiset of a cycle's ids. The component compares the sorted ids joined with `|`. The two agree because generated ids contain no `|`.
- The component's highlighting of edges whose endpoint lies in `cycleProcs`: colouring only.
