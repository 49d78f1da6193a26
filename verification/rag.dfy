/** The resource-allocation-graph entities, the availability calculator
    (`totalAllocated`, `availableInstances`, `holdersOfResource`) and the
    resolution of a clicked (source, destination) pair into the
    (resource, process) endpoints of an allocation or request edge. */
module Rag {
  import opened Seqs

  /** Entity identifiers. The source draws them at random (`uid`); here they
      are opaque values that can only be compared. */
  type Id(==, !new)

  datatype Option<T> = None | Some(value: T)

  datatype Process = Process(id: Id, name: string)
  datatype Resource = Resource(id: Id, name: string, instances: int)
  /** `count` units of resource `resId` held by process `procId`. */
  datatype Allocation = Allocation(resId: Id, procId: Id, count: int)
  /** Process `procId` waits for `count` more units of resource `resId`. */
  datatype Request = Request(procId: Id, resId: Id, count: int)

  /** The four collections of the entity store, in list order. */
  datatype State = State(
    processes: seq<Process>,
    resources: seq<Resource>,
    allocations: seq<Allocation>,
    requests: seq<Request>)

  /** `processes.some(p => p.id === id)` */
  predicate HasProcess(ps: seq<Process>, id: Id) {
    exists p :: p in ps && p.id == id
  }

  /** `resources.some(r => r.id === id)` */
  predicate HasResource(rs: seq<Resource>, id: Id) {
    exists r :: r in rs && r.id == id
  }

  /** `resources.find(r => r.id === id)`: the first resource with that id. */
  function FindResource(rs: seq<Resource>, id: Id): (r: Option<Resource>)
    ensures r.Some? <==> HasResource(rs, id)
    ensures r.Some? ==> exists i :: 0 <= i < |rs| && rs[i] == r.value && r.value.id == id &&
                                    forall j :: 0 <= j < i ==> rs[j].id != id
  {
    if rs == [] then None
    else if rs[0].id == id then Some(rs[0])
    else
      var r := FindResource(rs[1..], id);
      assert rs == [rs[0]] + rs[1..];
      if r.Some? then
        ghost var i :| 0 <= i < |rs[1..]| && rs[1..][i] == r.value && r.value.id == id &&
                       forall j :: 0 <= j < i ==> rs[1..][j].id != id;
        assert rs[i + 1] == r.value;
        r
      else r
  }

  /** `totalAllocated`: the sum of `count` over the allocation records of `resId`. */
  function TotalAllocated(allocs: seq<Allocation>, resId: Id): (total: int)
    ensures (forall a :: a in allocs ==> a.count >= 0) ==> total >= 0
    ensures (forall a :: a in allocs ==> a.resId != resId) ==> total == 0
  {
    if allocs == [] then 0
    else
      assert allocs == [allocs[0]] + allocs[1..];
      (if allocs[0].resId == resId then allocs[0].count else 0) + TotalAllocated(allocs[1..], resId)
  }

  /** `availableInstances`: capacity minus what is allocated; 0 for an unknown resource. */
  function AvailableInstances(rs: seq<Resource>, allocs: seq<Allocation>, resId: Id): int {
    match FindResource(rs, resId)
    case None => 0
    case Some(r) => r.instances - TotalAllocated(allocs, resId)
  }

  /** The availability calculator's contract: an unknown resource has nothing
      available; a known one has the capacity of the first resource with that id
      minus the counts of every allocation record naming it. */
  lemma AvailableInstancesSpec(rs: seq<Resource>, allocs: seq<Allocation>, resId: Id)
    ensures !HasResource(rs, resId) ==> AvailableInstances(rs, allocs, resId) == 0
    ensures HasResource(rs, resId) ==>
      exists i :: 0 <= i < |rs| && rs[i].id == resId && (forall j :: 0 <= j < i ==> rs[j].id != resId) &&
                  AvailableInstances(rs, allocs, resId) == rs[i].instances - TotalAllocated(allocs, resId)
  {
    var found := FindResource(rs, resId);
    if found.Some? {
      var i :| 0 <= i < |rs| && rs[i] == found.value && found.value.id == resId &&
               forall j :: 0 <= j < i ==> rs[j].id != resId;
      assert AvailableInstances(rs, allocs, resId) == rs[i].instances - TotalAllocated(allocs, resId);
    }
  }

  /** Adding one record changes only the total of the resource it names. */
  lemma {:induction false} TotalAllocatedAppend(allocs: seq<Allocation>, a: Allocation, resId: Id)
    ensures TotalAllocated(allocs + [a], resId) ==
            TotalAllocated(allocs, resId) + (if a.resId == resId then a.count else 0)
  {
    if allocs != [] {
      assert (allocs + [a])[1..] == allocs[1..] + [a];
      TotalAllocatedAppend(allocs[1..], a, resId);
    }
  }

  /** Removing records with non-negative counts never raises a total. */
  lemma {:induction false} TotalAllocatedSubsequence(sub: seq<Allocation>, allocs: seq<Allocation>, resId: Id)
    requires IsSubsequence(sub, allocs)
    requires forall a :: a in allocs ==> a.count >= 0
    ensures TotalAllocated(sub, resId) <= TotalAllocated(allocs, resId)
    decreases |allocs|
  {
    if allocs == [] {
    } else if sub != [] && sub[0] == allocs[0] && IsSubsequence(sub[1..], allocs[1..]) {
      TotalAllocatedSubsequence(sub[1..], allocs[1..], resId);
    } else {
      TotalAllocatedSubsequence(sub, allocs[1..], resId);
    }
  }

  /** `holdersOfResource`: the holder of each allocation record naming `resId`,
      one entry per record, in record order. */
  function HoldersOf(allocs: seq<Allocation>, resId: Id): (holders: seq<Id>)
    ensures forall h :: h in holders <==> exists a :: a in allocs && a.resId == resId && a.procId == h
  {
    if allocs == [] then []
    else
      assert allocs == [allocs[0]] + allocs[1..];
      (if allocs[0].resId == resId then [allocs[0].procId] else []) + HoldersOf(allocs[1..], resId)
  }

  /** Number of allocation records naming `resId`. */
  function RecordsOn(allocs: seq<Allocation>, resId: Id): nat {
    if allocs == [] then 0
    else (if allocs[0].resId == resId then 1 else 0) + RecordsOn(allocs[1..], resId)
  }

  /** There is one holder entry per allocation record, and a resource without
      records has no holders. */
  lemma {:induction false} HoldersOfCount(allocs: seq<Allocation>, resId: Id)
    ensures |HoldersOf(allocs, resId)| == RecordsOn(allocs, resId)
  {
    if allocs != [] {
      HoldersOfCount(allocs[1..], resId);
    }
  }

  /** Number of allocation records on `resId` held by `h`. */
  function HeldBy(allocs: seq<Allocation>, resId: Id, h: Id): nat {
    if allocs == [] then 0
    else (if allocs[0].resId == resId && allocs[0].procId == h then 1 else 0) + HeldBy(allocs[1..], resId, h)
  }

  /** Each holder appears once per record it holds on the resource. */
  lemma {:induction false} HoldersOfMultiplicity(allocs: seq<Allocation>, resId: Id)
    ensures forall h :: multiset(HoldersOf(allocs, resId))[h] == HeldBy(allocs, resId, h)
  {
    if allocs != [] {
      HoldersOfMultiplicity(allocs[1..], resId);
    }
  }

  /** The two endpoints of an allocation or request edge. */
  datatype Endpoints = Endpoints(resId: Id, procId: Id)

  /** A pair "links one resource with one process" when one end is a resource and the other a process. */
  predicate Links(s: State, res: Id, proc: Id) {
    HasResource(s.resources, res) && HasProcess(s.processes, proc)
  }

  /** The allocation-mode second click: the resource end is tried as the
      source first, then as the destination; anything else is discarded. */
  function ResolveAllocation(s: State, src: Id, dst: Id): (e: Option<Endpoints>)
    ensures e.Some? <==> Links(s, src, dst) || Links(s, dst, src)
    ensures e.Some? ==> Links(s, e.value.resId, e.value.procId)
    ensures e.Some? ==> (e.value == Endpoints(src, dst) || e.value == Endpoints(dst, src))
    ensures Links(s, src, dst) ==> e == Some(Endpoints(src, dst))
  {
    if HasResource(s.resources, src) && HasProcess(s.processes, dst) then Some(Endpoints(src, dst))
    else if HasResource(s.resources, dst) && HasProcess(s.processes, src) then Some(Endpoints(dst, src))
    else None
  }

  /** The request-mode second click: the process end is tried as the source
      first, then as the destination; anything else is discarded. */
  function ResolveRequest(s: State, src: Id, dst: Id): (e: Option<Endpoints>)
    ensures e.Some? <==> Links(s, src, dst) || Links(s, dst, src)
    ensures e.Some? ==> Links(s, e.value.resId, e.value.procId)
    ensures e.Some? ==> (e.value == Endpoints(src, dst) || e.value == Endpoints(dst, src))
    ensures Links(s, dst, src) ==> e == Some(Endpoints(dst, src))
  {
    if HasProcess(s.processes, src) && HasResource(s.resources, dst) then Some(Endpoints(dst, src))
    else if HasResource(s.resources, src) && HasProcess(s.processes, dst) then Some(Endpoints(src, dst))
    else None
  }

  /** No id names both a process and a resource (the `uid` prefixes keep them apart). */
  ghost predicate DisjointIds(s: State) {
    forall id :: HasProcess(s.processes, id) ==> !HasResource(s.resources, id)
  }

  /** With disjoint ids the click order does not matter, and both modes
      resolve a pair to the same endpoints. */
  lemma ResolveOrderIndependent(s: State, src: Id, dst: Id)
    requires DisjointIds(s)
    ensures ResolveAllocation(s, src, dst) == ResolveAllocation(s, dst, src)
    ensures ResolveRequest(s, src, dst) == ResolveAllocation(s, src, dst)
  {
  }
}
