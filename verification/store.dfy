/** The entity store: adding processes and resources, committing allocation
    and request edges, deleting a node with its cascade, and deleting a single
    allocation or request record by position. Each React state setter builds a
    new list, so every operation is first a function from the old `State` to
    the new one; the class `Store` below holds the four lists as fields and
    reassigns them. */
module EntityStore {
  import opened Seqs
  import opened Rag

  /** Decimal digits of `n`, for the positional labels `P<n>` and `R<n>`:
      the numeral reads back as `n` and has no leading zero. */
  function Digits(n: nat): (s: string)
    ensures |s| >= 1
    ensures forall k :: 0 <= k < |s| ==> '0' <= s[k] <= '9'
    ensures NumeralValue(s) == n
    ensures |s| > 1 ==> s[0] != '0'
  {
    if n < 10 then ["0123456789"[n]]
    else
      var init, last := Digits(n / 10), "0123456789"[n % 10];
      assert (init + [last])[..|init|] == init;
      init + [last]
  }

  /** The number a string of decimal digits denotes (most significant first). */
  function NumeralValue(s: string): int
    requires forall k :: 0 <= k < |s| ==> '0' <= s[k] <= '9'
  {
    if s == [] then 0 else 10 * NumeralValue(s[..|s| - 1]) + (s[|s| - 1] - '0') as int
  }

  // Key selectors handed to `Drop`; named so that every use denotes the same function.
  function ProcessKey(p: Process): Id { p.id }
  function ResourceKey(r: Resource): Id { r.id }
  function HolderKey(a: Allocation): Id { a.procId }
  function AllocatedKey(a: Allocation): Id { a.resId }
  function RequesterKey(q: Request): Id { q.procId }
  function RequestedKey(q: Request): Id { q.resId }

  /** The store invariant. Every record links a known resource with a known
      process, allocation counts are non-negative, and no resource has more
      allocated than the capacity that `availableInstances` looks up for it. */
  ghost predicate Invariant(s: State) {
    && (forall a :: a in s.allocations ==> Links(s, a.resId, a.procId) && a.count >= 0)
    && (forall q :: q in s.requests ==> Links(s, q.resId, q.procId))
    && CapacityRespected(s)
  }

  ghost predicate CapacityRespected(s: State) {
    forall id :: HasResource(s.resources, id) ==>
      TotalAllocated(s.allocations, id) <= FindResource(s.resources, id).value.instances
  }

  /** The state the simulator starts in: one process `P1`, one resource `R1`
      with a single instance, no allocations and no requests. */
  function Initial(pid: Id, rid: Id): (s: State)
    ensures Invariant(s)
    ensures HasProcess(s.processes, pid) && HasResource(s.resources, rid)
    ensures s.allocations == [] && s.requests == []
  {
    var s := State([Process(pid, "P1")], [Resource(rid, "R1", 1)], [], []);
    assert s.resources[0] in s.resources;
    s
  }

  /** `addProcess`: a new process with the next positional label. */
  function WithProcess(s: State, id: Id): (r: State)
    ensures |r.processes| == |s.processes| + 1 && r.processes[..|s.processes|] == s.processes
    ensures r.processes[|s.processes|].id == id
    ensures r.processes[|s.processes|].name == "P" + Digits(|s.processes| + 1)
    ensures r.resources == s.resources && r.allocations == s.allocations && r.requests == s.requests
  {
    s.(processes := s.processes + [Process(id, "P" + Digits(|s.processes| + 1))])
  }

  /** `addResource`: a new resource with one instance and the next positional label. */
  function WithResource(s: State, id: Id): (r: State)
    ensures r.resources == s.resources + [Resource(id, "R" + Digits(|s.resources| + 1), 1)]
    ensures r.processes == s.processes && r.allocations == s.allocations && r.requests == s.requests
    ensures AvailableInstances(r.resources, r.allocations, id) ==
            if HasResource(s.resources, id) then AvailableInstances(s.resources, s.allocations, id)
            else 1 - TotalAllocated(s.allocations, id)
  {
    FindResourceAppend(s.resources, Resource(id, "R" + Digits(|s.resources| + 1), 1), id);
    s.(resources := s.resources + [Resource(id, "R" + Digits(|s.resources| + 1), 1)])
  }

  /** Looking up an id in a list grown at the end finds the old match if there was one. */
  lemma {:induction false} FindResourceAppend(rs: seq<Resource>, r: Resource, id: Id)
    ensures FindResource(rs + [r], id) ==
            if HasResource(rs, id) then FindResource(rs, id) else if r.id == id then Some(r) else None
  {
    if rs != [] {
      assert (rs + [r])[1..] == rs[1..] + [r];
      FindResourceAppend(rs[1..], r, id);
      assert rs == [rs[0]] + rs[1..];
      assert HasResource(rs, id) <==> rs[0].id == id || HasResource(rs[1..], id);
    }
  }

  /** Dropping the resources with another id does not change what a lookup finds. */
  lemma {:induction false} FindResourceDrop(rs: seq<Resource>, gone: Id, id: Id)
    requires id != gone
    ensures FindResource(Drop(rs, ResourceKey, gone), id) == FindResource(rs, id)
  {
    if rs != [] {
      FindResourceDrop(rs[1..], gone, id);
      if ResourceKey(rs[0]) != gone {
        assert ([rs[0]] + Drop(rs[1..], ResourceKey, gone))[1..] == Drop(rs[1..], ResourceKey, gone);
      }
    }
  }

  /** The allocation edge between two clicked nodes. It is committed, with
      count 1, exactly when the pair resolves to a resource and a process and
      that resource has a free instance; otherwise nothing changes. */
  function WithAllocationEdge(s: State, src: Id, dst: Id): (r: State)
    ensures r.processes == s.processes && r.resources == s.resources && r.requests == s.requests
    ensures r.allocations == s.allocations || |r.allocations| == |s.allocations| + 1
    ensures r.allocations[..|s.allocations|] == s.allocations
    ensures |r.allocations| > |s.allocations| ==>
      var a := r.allocations[|s.allocations|];
      && a.count == 1
      && Links(s, a.resId, a.procId)
      && (Endpoints(a.resId, a.procId) == Endpoints(src, dst) || Endpoints(a.resId, a.procId) == Endpoints(dst, src))
      && AvailableInstances(s.resources, s.allocations, a.resId) > 0
    ensures (|r.allocations| > |s.allocations|) <==>
      ResolveAllocation(s, src, dst).Some? &&
      AvailableInstances(s.resources, s.allocations, ResolveAllocation(s, src, dst).value.resId) > 0
    ensures |r.allocations| > |s.allocations| ==>
      && ResolveAllocation(s, src, dst).Some?
      && r.allocations[|s.allocations|] ==
         Allocation(ResolveAllocation(s, src, dst).value.resId, ResolveAllocation(s, src, dst).value.procId, 1)
  {
    match ResolveAllocation(s, src, dst)
    case None => s
    case Some(e) =>
      if AvailableInstances(s.resources, s.allocations, e.resId) <= 0 then s
      else s.(allocations := s.allocations + [Allocation(e.resId, e.procId, 1)])
  }

  /** The request edge between two clicked nodes. It is committed, with count
      1 and no capacity check, exactly when the pair resolves to a resource and
      a process; otherwise nothing changes. */
  function WithRequestEdge(s: State, src: Id, dst: Id): (r: State)
    ensures r.processes == s.processes && r.resources == s.resources && r.allocations == s.allocations
    ensures r.requests == s.requests || |r.requests| == |s.requests| + 1
    ensures r.requests[..|s.requests|] == s.requests
    ensures |r.requests| > |s.requests| ==>
      var q := r.requests[|s.requests|];
      && q.count == 1
      && Links(s, q.resId, q.procId)
      && (Endpoints(q.resId, q.procId) == Endpoints(src, dst) || Endpoints(q.resId, q.procId) == Endpoints(dst, src))
    ensures (|r.requests| > |s.requests|) <==> Links(s, src, dst) || Links(s, dst, src)
    ensures |r.requests| > |s.requests| ==>
      && ResolveRequest(s, src, dst).Some?
      && r.requests[|s.requests|] ==
         Request(ResolveRequest(s, src, dst).value.procId, ResolveRequest(s, src, dst).value.resId, 1)
  {
    match ResolveRequest(s, src, dst)
    case None => s
    case Some(e) => s.(requests := s.requests + [Request(e.procId, e.resId, 1)])
  }

  /** Delete-mode click on `id`. A process id removes that process and every
      allocation and request it takes part in; any other id is treated as a
      resource and removes that resource and every record naming it. The
      surviving records keep their relative order. */
  function WithoutNode(s: State, id: Id): (r: State)
    ensures HasProcess(s.processes, id) ==>
      && !HasProcess(r.processes, id)
      && (forall p :: p in r.processes <==> p in s.processes && p.id != id)
      && r.resources == s.resources
      && (forall a :: a in r.allocations <==> a in s.allocations && a.procId != id)
      && (forall q :: q in r.requests <==> q in s.requests && q.procId != id)
    ensures !HasProcess(s.processes, id) ==>
      && !HasResource(r.resources, id)
      && r.processes == s.processes
      && (forall x :: x in r.resources <==> x in s.resources && x.id != id)
      && (forall a :: a in r.allocations <==> a in s.allocations && a.resId != id)
      && (forall q :: q in r.requests <==> q in s.requests && q.resId != id)
    ensures IsSubsequence(r.processes, s.processes) && IsSubsequence(r.resources, s.resources)
    ensures IsSubsequence(r.allocations, s.allocations) && IsSubsequence(r.requests, s.requests)
  {
    if HasProcess(s.processes, id) then
      SubsequenceRefl(s.resources);
      s.(processes := Drop(s.processes, ProcessKey, id),
         allocations := Drop(s.allocations, HolderKey, id),
         requests := Drop(s.requests, RequesterKey, id))
    else
      SubsequenceRefl(s.processes);
      s.(resources := Drop(s.resources, ResourceKey, id),
         allocations := Drop(s.allocations, AllocatedKey, id),
         requests := Drop(s.requests, RequestedKey, id))
  }

  /** The cascade removes every copy of a record naming the deleted node and
      keeps every copy of each other record, duplicates included. */
  lemma WithoutNodeCounts(s: State, id: Id)
    ensures HasProcess(s.processes, id) ==>
      && (forall p :: multiset(WithoutNode(s, id).processes)[p] ==
                      if p.id != id then multiset(s.processes)[p] else 0)
      && (forall a :: multiset(WithoutNode(s, id).allocations)[a] ==
                      if a.procId != id then multiset(s.allocations)[a] else 0)
      && (forall q :: multiset(WithoutNode(s, id).requests)[q] ==
                      if q.procId != id then multiset(s.requests)[q] else 0)
    ensures !HasProcess(s.processes, id) ==>
      && (forall x :: multiset(WithoutNode(s, id).resources)[x] ==
                      if x.id != id then multiset(s.resources)[x] else 0)
      && (forall a :: multiset(WithoutNode(s, id).allocations)[a] ==
                      if a.resId != id then multiset(s.allocations)[a] else 0)
      && (forall q :: multiset(WithoutNode(s, id).requests)[q] ==
                      if q.resId != id then multiset(s.requests)[q] else 0)
  {
    if HasProcess(s.processes, id) {
      DropCounts(s.processes, ProcessKey, id);
      DropCounts(s.allocations, HolderKey, id);
      DropCounts(s.requests, RequesterKey, id);
    } else {
      DropCounts(s.resources, ResourceKey, id);
      DropCounts(s.allocations, AllocatedKey, id);
      DropCounts(s.requests, RequestedKey, id);
    }
  }

  /** The `x` button of allocation row `i`. */
  function WithoutAllocation(s: State, i: int): (r: State)
    ensures r.processes == s.processes && r.resources == s.resources && r.requests == s.requests
    ensures 0 <= i < |s.allocations| ==> r.allocations == s.allocations[..i] + s.allocations[i + 1..]
    ensures !(0 <= i < |s.allocations|) ==> r == s
  {
    s.(allocations := RemoveAt(s.allocations, i))
  }

  /** The `x` button of request row `i`. */
  function WithoutRequest(s: State, i: int): (r: State)
    ensures r.processes == s.processes && r.resources == s.resources && r.allocations == s.allocations
    ensures 0 <= i < |s.requests| ==> r.requests == s.requests[..i] + s.requests[i + 1..]
    ensures !(0 <= i < |s.requests|) ==> r == s
  {
    s.(requests := RemoveAt(s.requests, i))
  }

  // ---------------------------------------------------------------------------
  // Every store operation keeps the invariant.

  lemma AddProcessKeepsValid(s: State, id: Id)
    requires Invariant(s)
    ensures Invariant(WithProcess(s, id))
  {
    var r := WithProcess(s, id);
    forall x | HasProcess(s.processes, x) ensures HasProcess(r.processes, x) {
      var p :| p in s.processes && p.id == x;
      assert p in r.processes;
    }
  }

  lemma AddResourceKeepsValid(s: State, id: Id)
    requires Invariant(s)
    ensures Invariant(WithResource(s, id))
  {
    var added := Resource(id, "R" + Digits(|s.resources| + 1), 1);
    assert WithResource(s, id) == s.(resources := s.resources + [added]);
    AppendResourceKeepsValid(s, added);
  }

  /** Appending a resource with a non-negative capacity keeps the invariant:
      a repeated id keeps the capacity found first, and a new id has nothing
      allocated yet. */
  lemma AppendResourceKeepsValid(s: State, added: Resource)
    requires Invariant(s) && added.instances >= 0
    ensures Invariant(s.(resources := s.resources + [added]))
  {
    var r := s.(resources := s.resources + [added]);
    forall x | HasResource(s.resources, x) ensures HasResource(r.resources, x) {
      var q :| q in s.resources && q.id == x;
      assert q in r.resources;
    }
    forall x | HasResource(r.resources, x)
      ensures TotalAllocated(r.allocations, x) <= FindResource(r.resources, x).value.instances
    {
      FindResourceAppend(s.resources, added, x);
      if !HasResource(s.resources, x) {
        UnknownResourceUnallocated(s, x);
      }
    }
  }

  /** In a consistent store, an id that names no resource has nothing allocated. */
  lemma UnknownResourceUnallocated(s: State, x: Id)
    requires Invariant(s) && !HasResource(s.resources, x)
    ensures TotalAllocated(s.allocations, x) == 0
  {
    forall a | a in s.allocations ensures a.resId != x {
      assert Links(s, a.resId, a.procId);
    }
  }

  lemma AllocationEdgeKeepsValid(s: State, src: Id, dst: Id)
    requires Invariant(s)
    ensures Invariant(WithAllocationEdge(s, src, dst))
  {
    var e := ResolveAllocation(s, src, dst);
    if e.Some? && AvailableInstances(s.resources, s.allocations, e.value.resId) > 0 {
      var a := Allocation(e.value.resId, e.value.procId, 1);
      assert WithAllocationEdge(s, src, dst) == s.(allocations := s.allocations + [a]);
      AppendAllocationKeepsValid(s, a);
    }
  }

  /** Appending a record that links a resource with a process and takes no
      more than the available instances keeps the invariant. */
  lemma AppendAllocationKeepsValid(s: State, a: Allocation)
    requires Invariant(s) && Links(s, a.resId, a.procId)
    requires 0 <= a.count <= AvailableInstances(s.resources, s.allocations, a.resId)
    ensures Invariant(s.(allocations := s.allocations + [a]))
  {
    var r := s.(allocations := s.allocations + [a]);
    forall x | HasResource(r.resources, x)
      ensures TotalAllocated(r.allocations, x) <= FindResource(r.resources, x).value.instances
    {
      TotalAllocatedAppend(s.allocations, a, x);
    }
    assert CapacityRespected(r);
  }

  lemma RequestEdgeKeepsValid(s: State, src: Id, dst: Id)
    requires Invariant(s)
    ensures Invariant(WithRequestEdge(s, src, dst))
  {
    var r := WithRequestEdge(s, src, dst);
    if |r.requests| > |s.requests| {
      assert r.requests == s.requests + [r.requests[|s.requests|]];
    }
  }

  lemma DeleteNodeKeepsValid(s: State, id: Id)
    requires Invariant(s)
    ensures Invariant(WithoutNode(s, id))
  {
    if HasProcess(s.processes, id) {
      DeleteProcessKeepsValid(s, id);
    } else {
      DeleteResourceKeepsValid(s, id);
    }
  }

  lemma DeleteProcessKeepsValid(s: State, id: Id)
    requires Invariant(s) && HasProcess(s.processes, id)
    ensures Invariant(WithoutNode(s, id))
  {
    var r := WithoutNode(s, id);
    forall a | a in r.allocations ensures HasProcess(r.processes, a.procId) {
      var p :| p in s.processes && p.id == a.procId;
      assert p in r.processes;
    }
    forall q | q in r.requests ensures HasProcess(r.processes, q.procId) {
      var p :| p in s.processes && p.id == q.procId;
      assert p in r.processes;
    }
    forall x | HasResource(r.resources, x)
      ensures TotalAllocated(r.allocations, x) <= FindResource(r.resources, x).value.instances
    {
      TotalAllocatedSubsequence(r.allocations, s.allocations, x);
    }
  }

  lemma DeleteResourceKeepsValid(s: State, id: Id)
    requires Invariant(s) && !HasProcess(s.processes, id)
    ensures Invariant(WithoutNode(s, id))
  {
    var r := WithoutNode(s, id);
    forall a | a in r.allocations ensures HasResource(r.resources, a.resId) {
      var x :| x in s.resources && x.id == a.resId;
      assert x in r.resources;
    }
    forall q | q in r.requests ensures HasResource(r.resources, q.resId) {
      var x :| x in s.resources && x.id == q.resId;
      assert x in r.resources;
    }
    forall x | HasResource(r.resources, x)
      ensures TotalAllocated(r.allocations, x) <= FindResource(r.resources, x).value.instances
    {
      FindResourceDrop(s.resources, id, x);
      TotalAllocatedSubsequence(r.allocations, s.allocations, x);
    }
  }

  lemma RemoveAllocationKeepsValid(s: State, i: int)
    requires Invariant(s)
    ensures Invariant(WithoutAllocation(s, i))
  {
    var r := WithoutAllocation(s, i);
    SubsequenceMembers(r.allocations, s.allocations);
    forall x | HasResource(r.resources, x)
      ensures TotalAllocated(r.allocations, x) <= FindResource(r.resources, x).value.instances
    {
      TotalAllocatedSubsequence(r.allocations, s.allocations, x);
    }
  }

  lemma RemoveRequestKeepsValid(s: State, i: int)
    requires Invariant(s)
    ensures Invariant(WithoutRequest(s, i))
  {
    var r := WithoutRequest(s, i);
    SubsequenceMembers(r.requests, s.requests);
  }

  /** Availability is never negative in a valid store: a known resource is
      never over-allocated and an unknown one reports 0. */
  lemma AvailableNonNegative(s: State, id: Id)
    requires Invariant(s)
    ensures AvailableInstances(s.resources, s.allocations, id) >= 0
  {
  }

  /** The entity store as the component holds it: four lists, each replaced
      wholesale by the operation that changes it. */
  class Store {
    var processes: seq<Process>
    var resources: seq<Resource>
    var allocations: seq<Allocation>
    var requests: seq<Request>

    function Snapshot(): State
      reads this
    {
      State(processes, resources, allocations, requests)
    }

    ghost predicate Valid()
      reads this
    {
      Invariant(Snapshot())
    }

    constructor (pid: Id, rid: Id)
      ensures Snapshot() == Initial(pid, rid)
      ensures Valid()
    {
      processes := [Process(pid, "P1")];
      resources := [Resource(rid, "R1", 1)];
      allocations := [];
      requests := [];
    }

    method AddProcess(id: Id)
      modifies this
      ensures Snapshot() == WithProcess(old(Snapshot()), id)
      ensures old(Valid()) ==> Valid()
    {
      ghost var before := Snapshot();
      processes := processes + [Process(id, "P" + Digits(|processes| + 1))];
      if Invariant(before) {
        AddProcessKeepsValid(before, id);
      }
    }

    method AddResource(id: Id)
      modifies this
      ensures Snapshot() == WithResource(old(Snapshot()), id)
      ensures old(Valid()) ==> Valid()
    {
      ghost var before := Snapshot();
      resources := resources + [Resource(id, "R" + Digits(|resources| + 1), 1)];
      if Invariant(before) {
        AddResourceKeepsValid(before, id);
      }
    }

    /** Second click in allocation mode; `added` tells whether the edge was committed. */
    method AddAllocationEdge(src: Id, dst: Id) returns (added: bool)
      modifies this
      ensures Snapshot() == WithAllocationEdge(old(Snapshot()), src, dst)
      ensures added <==> |allocations| == |old(allocations)| + 1
      ensures old(Valid()) ==> Valid()
    {
      ghost var before := Snapshot();
      var isSrcRes := HasResource(resources, src);
      var isDstRes := HasResource(resources, dst);
      var isSrcProc := HasProcess(processes, src);
      var isDstProc := HasProcess(processes, dst);
      var resId, procId;
      if isSrcRes && isDstProc {
        resId, procId := src, dst;
      } else if isDstRes && isSrcProc {
        resId, procId := dst, src;
      } else {
        return false;
      }
      if AvailableInstances(resources, allocations, resId) <= 0 {
        return false;
      }
      allocations := allocations + [Allocation(resId, procId, 1)];
      added := true;
      if Invariant(before) {
        AllocationEdgeKeepsValid(before, src, dst);
      }
    }

    /** Second click in request mode; `added` tells whether the edge was committed. */
    method AddRequestEdge(src: Id, dst: Id) returns (added: bool)
      modifies this
      ensures Snapshot() == WithRequestEdge(old(Snapshot()), src, dst)
      ensures added <==> |requests| == |old(requests)| + 1
      ensures old(Valid()) ==> Valid()
    {
      ghost var before := Snapshot();
      var isSrcProc := HasProcess(processes, src);
      var isDstRes := HasResource(resources, dst);
      var isDstProc := HasProcess(processes, dst);
      var isSrcRes := HasResource(resources, src);
      var procId, resId;
      if isSrcProc && isDstRes {
        procId, resId := src, dst;
      } else if isSrcRes && isDstProc {
        procId, resId := dst, src;
      } else {
        return false;
      }
      requests := requests + [Request(procId, resId, 1)];
      added := true;
      if Invariant(before) {
        RequestEdgeKeepsValid(before, src, dst);
      }
    }

    /** Delete-mode click on a node. */
    method DeleteNode(id: Id)
      modifies this
      ensures Snapshot() == WithoutNode(old(Snapshot()), id)
      ensures old(Valid()) ==> Valid()
    {
      ghost var before := Snapshot();
      if HasProcess(processes, id) {
        processes := Drop(processes, ProcessKey, id);
        allocations := Drop(allocations, HolderKey, id);
        requests := Drop(requests, RequesterKey, id);
      } else {
        resources := Drop(resources, ResourceKey, id);
        allocations := Drop(allocations, AllocatedKey, id);
        requests := Drop(requests, RequestedKey, id);
      }
      if Invariant(before) {
        DeleteNodeKeepsValid(before, id);
      }
    }

    method DeleteAllocation(i: int)
      modifies this
      ensures Snapshot() == WithoutAllocation(old(Snapshot()), i)
      ensures old(Valid()) ==> Valid()
    {
      ghost var before := Snapshot();
      allocations := RemoveAt(allocations, i);
      if Invariant(before) {
        RemoveAllocationKeepsValid(before, i);
      }
    }

    method DeleteRequest(i: int)
      modifies this
      ensures Snapshot() == WithoutRequest(old(Snapshot()), i)
      ensures old(Valid()) ==> Valid()
    {
      ghost var before := Snapshot();
      requests := RemoveAt(requests, i);
      if Invariant(before) {
        RemoveRequestKeepsValid(before, i);
      }
    }
  }
}
