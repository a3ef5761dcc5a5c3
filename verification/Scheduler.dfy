/** The process ring of src/kernel/scheduler.c, built on the kernel heap and the page allocator.

    Process structures live at heap addresses and are chained through `next` into a circle.  The ghost field
    `ring` is that circle read off from the list head: PID 0 first, then the other processes, newest first. */
module Scheduler {
  import opened Heap
  import opened Pages
  import opened Words

  const PROCESS_BYTES: nat := 28
  const STRUCT_NEED: nat := 32  // PROCESS_BYTES rounded up

  /** process_t; the saved ebp and eip are never read by this code. */
  datatype Process = Process(id: nat, esp: nat, stackBase: nat, state: nat, next: nat)

  datatype ProcInfo = ProcInfo(id: nat, state: nat, current: bool)

  /** The position after `i` on a circle of `n`. */
  function Next(i: nat, n: nat): nat {
    if i + 1 < n then i + 1 else 0
  }

  predicate LinkedAt(procs: map<nat, Process>, ring: seq<nat>, i: nat)
    requires i < |ring| && ring[i] in procs
  {
    procs[ring[i]].next == ring[Next(i, |ring|)]
  }

  /** The links of a circular list: each node points to the one after it, the last one to the first. */
  predicate Circle(procs: map<nat, Process>, ring: seq<nat>) {
    && (forall i :: 0 <= i < |ring| ==> ring[i] in procs && ring[i] != 0)
    && (forall i :: 0 <= i < |ring| ==> LinkedAt(procs, ring, i))
    && (forall i, j :: 0 <= i < j < |ring| ==> ring[i] != ring[j])
  }

  /** The process's stack is one whole page, and the stack pointer lies in it. */
  predicate OnPage(p: Process) {
    0 < p.stackBase < WORD && p.stackBase % PAGE_SIZE == 0 && p.stackBase <= p.esp < p.stackBase + PAGE_SIZE
  }

  /** Every process but the first has a stack page of its own. */
  predicate OwnStacks(procs: map<nat, Process>, ring: seq<nat>, taken: set<nat>)
    requires Circle(procs, ring)
  {
    && (forall i :: 1 <= i < |ring| ==>
          OnPage(procs[ring[i]]) && procs[ring[i]].stackBase / PAGE_SIZE in taken)
    && (forall i, j :: 1 <= i < j < |ring| ==>
          procs[ring[i]].stackBase / PAGE_SIZE != procs[ring[j]].stackBase / PAGE_SIZE)
  }

  predicate OwnBlocks(ring: seq<nat>, live: map<nat, nat>) {
    forall i :: 0 <= i < |ring| ==> ring[i] in live && PROCESS_BYTES <= live[ring[i]]
  }

  /** The id of the process created as number `serial`, in 32 bits; number 0 is the kernel. */
  function PidOf(serial: nat): (pid: nat)
    ensures pid < WORD
  {
    serial % WORD
  }

  /** The processes along the ring by number: the kernel, then the others from the newest on, `issued` the last one. */
  predicate Pids(procs: map<nat, Process>, ring: seq<nat>, births: seq<nat>, issued: nat)
    requires Circle(procs, ring)
  {
    && |births| == |ring|
    && (forall i :: 0 <= i < |ring| ==> procs[ring[i]].id == PidOf(births[i]))
    && (ring != [] ==> births[0] == 0)
    && (forall i :: 1 <= i < |ring| ==> 0 < births[i] <= issued)
    && (forall i, j :: 1 <= i < j < |ring| ==> births[j] < births[i])
  }

  function Without(ring: seq<nat>, k: nat): seq<nat>
    requires k < |ring|
  {
    ring[..k] + ring[k + 1..]
  }

  function Find(procs: map<nat, Process>, ring: seq<nat>, pid: nat, from: nat): (k: nat)
    requires forall i :: 0 <= i < |ring| ==> ring[i] in procs
    requires from <= |ring|
    ensures from <= k <= |ring|
    ensures k < |ring| ==> procs[ring[k]].id == pid
    ensures forall i :: from <= i < k ==> procs[ring[i]].id != pid
    decreases |ring| - from
  {
    if from == |ring| || procs[ring[from]].id == pid then from else Find(procs, ring, pid, from + 1)
  }

  /** The scheduler invariant, as a statement about values: the ring, what its nodes own, and their ids. */
  predicate RingState(procs: map<nat, Process>, ring: seq<nat>, births: seq<nat>, live: map<nat, nat>, taken: set<nat>,
                      issued: nat) {
    Circle(procs, ring) && OwnBlocks(ring, live) && OwnStacks(procs, ring, taken) && Pids(procs, ring, births, issued)
  }

  /** Two processes have the same id exactly when a multiple of 2^32 creations lies between theirs. */
  lemma SamePid(procs: map<nat, Process>, ring: seq<nat>, births: seq<nat>, issued: nat, i: nat, j: nat)
    requires Circle(procs, ring) && Pids(procs, ring, births, issued) && i < j < |ring|
    ensures procs[ring[i]].id == procs[ring[j]].id <==> (births[i] - births[j]) % WORD == 0
    ensures issued < WORD ==> procs[ring[i]].id != procs[ring[j]].id && (i > 0 ==> procs[ring[j]].id < procs[ring[i]].id)
  {
  }

  /** The walk round the ring: from each process to the one behind it, and from the last back to the first. */
  lemma Onward(procs: map<nat, Process>, ring: seq<nat>, births: seq<nat>, live: map<nat, nat>, taken: set<nat>, issued: nat,
               k: nat)
    requires RingState(procs, ring, births, live, taken, issued) && k < |ring|
    ensures ring[k] in procs && procs[ring[k]].next != 0
    ensures procs[ring[k]].next == if k + 1 < |ring| then ring[k + 1] else ring[0]
    ensures k + 1 < |ring| ==> ring[k + 1] != ring[0]
  {
    hide OwnBlocks, OwnStacks, Pids;
    NodeFacts(procs, ring, births, live, taken, issued, k);
  }

  /** The kernel is process 0, and before the ids wrap the others stand newest first. */
  lemma NewestFirst(procs: map<nat, Process>, ring: seq<nat>, births: seq<nat>, live: map<nat, nat>, taken: set<nat>,
                    issued: nat)
    requires RingState(procs, ring, births, live, taken, issued)
    ensures forall i :: 0 <= i < |ring| ==> ring[i] in procs
    ensures ring != [] ==> ring[0] != 0 && procs[ring[0]].id == 0
    ensures issued < WORD ==> forall i, j :: 1 <= i < j < |ring| ==> procs[ring[j]].id < procs[ring[i]].id
  {
    hide OwnBlocks, OwnStacks;
    forall i | 0 <= i < |ring| ensures ring[i] in procs && ring[i] != 0 {
      NodeFacts(procs, ring, births, live, taken, issued, i);
    }
    if issued < WORD {
      forall i, j | 1 <= i < j < |ring| ensures procs[ring[j]].id < procs[ring[i]].id {
        SamePid(procs, ring, births, issued, i, j);
      }
    }
  }

  lemma AllUntouched(procs: map<nat, Process>, ring: seq<nat>, births: seq<nat>, live: map<nat, nat>, taken: set<nat>,
                     issued: nat)
    requires RingState(procs, ring, births, live, taken, issued)
    ensures Untouched(procs, procs, ring)
  {
  }

  lemma NodeFacts(procs: map<nat, Process>, ring: seq<nat>, births: seq<nat>, live: map<nat, nat>, taken: set<nat>,
                  issued: nat, k: nat)
    requires RingState(procs, ring, births, live, taken, issued) && k < |ring|
    ensures ring[k] in procs && ring[k] != 0 && ring[k] in live && LinkedAt(procs, ring, k)
    ensures 1 <= k ==> OnPage(procs[ring[k]])
    ensures |ring| > 1 ==> ring[Next(k, |ring|)] != ring[k]
    ensures forall x :: x in ring ==> x in procs
  {
  }

  /** The processes of `nodes` are what they were, except for their links. */
  predicate Untouched(was: map<nat, Process>, procs: map<nat, Process>, nodes: seq<nat>) {
    forall a :: a in nodes ==> a in was && a in procs && procs[a] == was[a].(next := procs[a].next)
  }

  lemma UntouchedTwice(was: map<nat, Process>, made: map<nat, Process>, procs: map<nat, Process>, nodes: seq<nat>,
                       left: seq<nat>)
    requires Untouched(was, made, nodes) && Untouched(made, procs, left) && forall a :: a in nodes ==> a in left
    ensures Untouched(was, procs, nodes)
  {
  }

  /** Taking out the entry put in second. */
  lemma SecondTakenOut(s: seq<nat>, t: seq<nat>)
    requires s != [] && |t| == |s| + 1 && t == [s[0], t[1]] + s[1..]
    ensures Without(t, 1) == s && forall a :: a in s ==> a in t
  {
    assert s == [s[0]] + s[1..];
  }

  function Unlinked(procs: map<nat, Process>, prev: nat, cur: nat): map<nat, Process>
    requires prev in procs && cur in procs
  {
    procs[prev := procs[prev].(next := procs[cur].next)]
  }

  lemma UnlinkKeepsCircle(procs: map<nat, Process>, ring: seq<nat>, k: nat)
    requires Circle(procs, ring) && 1 <= k < |ring|
    ensures Circle(Unlinked(procs, ring[k - 1], ring[k]), Without(ring, k))
  {
    var procs', r := Unlinked(procs, ring[k - 1], ring[k]), Without(ring, k);
    assert forall i :: 0 <= i < |r| ==> r[i] == ring[if i < k then i else i + 1];
    forall i | 0 <= i < |r| ensures r[i] in procs' && r[i] != 0 && LinkedAt(procs', r, i) {
      UnlinkLink(procs, ring, k, i);
    }
  }

  /** One link of the circle that is left. */
  lemma UnlinkLink(procs: map<nat, Process>, ring: seq<nat>, k: nat, i: nat)
    requires Circle(procs, ring) && 1 <= k < |ring| && i < |ring| - 1
    ensures var procs', r := Unlinked(procs, ring[k - 1], ring[k]), Without(ring, k);
            r[i] in procs' && r[i] != 0 && LinkedAt(procs', r, i)
  {
    var r := Without(ring, k);
    if i < k - 1 {
      assert r[i] == ring[i] && r[i + 1] == ring[i + 1] && LinkedAt(procs, ring, i);
    } else if i == k - 1 {
      assert r[i] == ring[i] && LinkedAt(procs, ring, k);
    } else {
      assert r[i] == ring[i + 1] && LinkedAt(procs, ring, i + 1);
    }
  }

  lemma WithoutMembers(ring: seq<nat>, k: nat, x: nat)
    requires k < |ring| && x in ring && x != ring[k]
    ensures x in Without(ring, k)
  {
    var i :| 0 <= i < |ring| && ring[i] == x;
    assert Without(ring, k)[if i < k then i else i - 1] == x;
  }

  lemma UnlinkKeepsState(procs: map<nat, Process>, ring: seq<nat>, births: seq<nat>, k: nat, live: map<nat, nat>,
                         taken: set<nat>, issued: nat)
    requires RingState(procs, ring, births, live, taken, issued) && 1 <= k < |ring|
    ensures |births| == |ring|
    ensures RingState(Unlinked(procs, ring[k - 1], ring[k]), Without(ring, k), Without(births, k), live - {ring[k]},
                      taken - {procs[ring[k]].stackBase / PAGE_SIZE}, issued)
    ensures ring[k] in procs && ring[k - 1] in procs && ring[k] in live && 0 < procs[ring[k]].stackBase < WORD
    ensures Without(ring, k) != [] && Without(ring, k)[0] == ring[0]
    ensures procs[ring[k]].next == ring[Next(k, |ring|)] && ring[Next(k, |ring|)] in Without(ring, k)
    ensures forall x :: x in ring && x != ring[k] ==> x in Without(ring, k)
    ensures Untouched(procs, Unlinked(procs, ring[k - 1], ring[k]), Without(ring, k))
  {
    hide OwnStacks, OwnBlocks, Circle, Pids, Without;
    UnlinkOwner(procs, ring, births, k, live, taken, issued);
    UnlinkKeepsCircle(procs, ring, k);
    UnlinkedNodes(procs, ring, k);
    PidsLength(procs, ring, births, issued);
    var procs' := Unlinked(procs, ring[k - 1], ring[k]);
    UnlinkKeepsOwnership(procs, ring, k, procs', live, taken);
    UnlinkKeepsPids(procs, ring, births, issued, k, procs');
  }

  lemma PidsLength(procs: map<nat, Process>, ring: seq<nat>, births: seq<nat>, issued: nat)
    requires Circle(procs, ring) && Pids(procs, ring, births, issued)
    ensures |births| == |ring|
  {
  }

  /** Every node keeps its data, and all but the one taken out stay in the ring. */
  lemma UnlinkedNodes(procs: map<nat, Process>, ring: seq<nat>, k: nat)
    requires Circle(procs, ring) && 1 <= k < |ring|
    ensures Without(ring, k) != [] && Without(ring, k)[0] == ring[0]
    ensures procs[ring[k]].next == ring[Next(k, |ring|)] && ring[Next(k, |ring|)] in Without(ring, k)
    ensures forall x :: x in ring && x != ring[k] ==> x in Without(ring, k)
    ensures var procs' := Unlinked(procs, ring[k - 1], ring[k]);
            && Untouched(procs, procs', Without(ring, k))
            && forall i :: 0 <= i < |ring| ==> ring[i] in procs' && procs'[ring[i]].id == procs[ring[i]].id
                                               && procs'[ring[i]].stackBase == procs[ring[i]].stackBase
                                               && procs'[ring[i]].esp == procs[ring[i]].esp
  {
    assert LinkedAt(procs, ring, k) && ring[k - 1] in procs;
    forall x | x in ring && x != ring[k] ensures x in Without(ring, k) {
      WithoutMembers(ring, k, x);
    }
  }

  lemma UnlinkKeepsPids(procs: map<nat, Process>, ring: seq<nat>, births: seq<nat>, issued: nat, k: nat,
                        procs': map<nat, Process>)
    requires Circle(procs, ring) && Pids(procs, ring, births, issued) && 1 <= k < |ring| && Circle(procs', Without(ring, k))
    requires forall i :: 0 <= i < |ring| ==> ring[i] in procs' && procs'[ring[i]].id == procs[ring[i]].id
    ensures Pids(procs', Without(ring, k), Without(births, k), issued)
  {
    hide PidOf;
    var r, b := Without(ring, k), Without(births, k);
    forall i | 0 <= i < |r|
      ensures var j := if i < k then i else i + 1; r[i] == ring[j] && b[i] == births[j]
    {
    }
  }

  lemma UnlinkOwner(procs: map<nat, Process>, ring: seq<nat>, births: seq<nat>, k: nat, live: map<nat, nat>, taken: set<nat>,
                    issued: nat)
    requires RingState(procs, ring, births, live, taken, issued) && 1 <= k < |ring|
    ensures ring[k] in live && ring[k] in procs && 0 < procs[ring[k]].stackBase < WORD
  {
  }

  lemma UnlinkKeepsOwnership(procs: map<nat, Process>, ring: seq<nat>, k: nat, procs': map<nat, Process>,
                             live: map<nat, nat>, taken: set<nat>)
    requires Circle(procs, ring) && 1 <= k < |ring| && Circle(procs', Without(ring, k))
    requires OwnStacks(procs, ring, taken) && OwnBlocks(ring, live)
    requires forall i :: 0 <= i < |ring| ==> ring[i] in procs' && procs'[ring[i]].stackBase == procs[ring[i]].stackBase
                                             && procs'[ring[i]].esp == procs[ring[i]].esp
    ensures OwnStacks(procs', Without(ring, k), taken - {procs[ring[k]].stackBase / PAGE_SIZE})
    ensures OwnBlocks(Without(ring, k), live - {ring[k]})
  {
    var r := Without(ring, k);
    forall i | 0 <= i < |r|
      ensures var j := if i < k then i else i + 1; r[i] == ring[j] && ring[j] != ring[k]
    {
    }
  }

  /** A process as create_process sets it up on a page: ready to run, with six words on its stack. */
  predicate IsNew(p: Process, pid: nat, page: nat) {
    p.id == pid && p.stackBase == page * 4096 && p.esp == page * 4096 + 4096 - 6 * 4 && p.state == 1
  }

  lemma PageOf(p: Process, pid: nat, page: nat, lo: nat, hi: nat, taken: set<nat>)
    requires IsNew(p, pid, page) && LowestFree(page, lo, hi, taken)
    ensures p.id == pid && p.stackBase / PAGE_SIZE == page && taken + {page} - {page} == taken
  {
  }

  /** The stacks of two processes are disjoint ranges of bytes, and the stack pointer of each lies in its own. */
  lemma StacksApart(procs: map<nat, Process>, ring: seq<nat>, births: seq<nat>, live: map<nat, nat>, taken: set<nat>,
                    issued: nat, i: nat, j: nat)
    requires RingState(procs, ring, births, live, taken, issued) && 1 <= i < j < |ring|
    ensures ring[i] in procs && ring[j] in procs
    ensures var p, q := procs[ring[i]], procs[ring[j]];
            && (p.stackBase + 4096 <= q.stackBase || q.stackBase + 4096 <= p.stackBase)
            && p.stackBase <= p.esp < p.stackBase + 4096 && q.stackBase <= q.esp < q.stackBase + 4096
  {
    hide OwnBlocks, Pids, LinkedAt;
    var p, q := procs[ring[i]], procs[ring[j]];
    assert p.stackBase / PAGE_SIZE != q.stackBase / PAGE_SIZE;
  }

  /** The lowest of the pages from `lo` up to `hi` that is not taken. */
  predicate LowestFree(page: nat, lo: nat, hi: nat, taken: set<nat>) {
    lo <= page < hi && page !in taken && forall other :: lo <= other < page ==> other in taken
  }

  function Inserted(procs: map<nat, Process>, head: nat, a: nat, p: Process): map<nat, Process>
    requires head in procs
  {
    procs[a := p.(next := procs[head].next)][head := procs[head].(next := a)]
  }

  lemma InsertKeepsCircle(procs: map<nat, Process>, ring: seq<nat>, a: nat, p: Process)
    requires Circle(procs, ring) && ring != [] && a !in ring && a != 0
    ensures Circle(Inserted(procs, ring[0], a, p), [ring[0], a] + ring[1..])
  {
    var procs', r := Inserted(procs, ring[0], a, p), [ring[0], a] + ring[1..];
    forall i | 0 <= i < |r|
      ensures r[i] in procs' && LinkedAt(procs', r, i)
    {
      assert LinkedAt(procs, ring, if i == 0 then 0 else i - 1);
      if i >= 2 { assert r[i] == ring[i - 1] && r[i] != a && r[i] != ring[0]; }
    }
  }

  lemma InsertKeepsState(procs: map<nat, Process>, ring: seq<nat>, births: seq<nat>, a: nat, p: Process, live: map<nat, nat>,
                         taken: set<nat>, page: nat, issued: nat)
    requires RingState(procs, ring, births, live, taken, issued) && ring != []
    requires a !in ring && a in live && a != 0 && PROCESS_BYTES <= live[a]
    requires OnPage(p) && page == p.stackBase / PAGE_SIZE && page !in taken
    requires p.id == PidOf(issued + 1)
    ensures births != []
    ensures RingState(Inserted(procs, ring[0], a, p), [ring[0], a] + ring[1..], [births[0], issued + 1] + births[1..], live,
                      taken + {page}, issued + 1)
    ensures var procs' := Inserted(procs, ring[0], a, p);
            && a in procs' && procs'[a] == p.(next := procs'[a].next) && Untouched(procs, procs', ring)
            && forall x :: x in ring ==> x in [ring[0], a] + ring[1..]
  {
    hide OwnStacks, OwnBlocks, Pids, Circle, LinkedAt;
    InsertedNodes(procs, ring, a, p);
    InsertKeepsCircle(procs, ring, a, p);
    var procs' := Inserted(procs, ring[0], a, p);
    InsertKeepsOwnership(procs, ring, a, procs', live, taken, page);
    InsertKeepsPids(procs, ring, births, issued, a, procs');
  }

  /** The new node has the new process's data, every other node what it had. */
  lemma InsertedNodes(procs: map<nat, Process>, ring: seq<nat>, a: nat, p: Process)
    requires Circle(procs, ring) && ring != [] && a !in ring
    ensures var procs' := Inserted(procs, ring[0], a, p);
            && a in procs' && procs'[a] == p.(next := procs'[a].next) && Untouched(procs, procs', ring)
            && forall x :: x in ring ==> x in [ring[0], a] + ring[1..]
  {
    assert ring == [ring[0]] + ring[1..];
  }

  lemma InsertKeepsOwnership(procs: map<nat, Process>, ring: seq<nat>, a: nat, procs': map<nat, Process>,
                             live: map<nat, nat>, taken: set<nat>, page: nat)
    requires Circle(procs, ring) && ring != [] && Circle(procs', [ring[0], a] + ring[1..])
    requires OwnStacks(procs, ring, taken) && OwnBlocks(ring, live) && a in live && PROCESS_BYTES <= live[a]
    requires a in procs' && OnPage(procs'[a]) && page == procs'[a].stackBase / PAGE_SIZE && page !in taken
    requires forall x :: x in ring ==> x in procs && x in procs' && procs'[x].stackBase == procs[x].stackBase
                                       && procs'[x].esp == procs[x].esp
    ensures OwnStacks(procs', [ring[0], a] + ring[1..], taken + {page}) && OwnBlocks([ring[0], a] + ring[1..], live)
  {
    hide Circle, LinkedAt;
    var r := [ring[0], a] + ring[1..];
    forall i | 2 <= i < |r| ensures r[i] == ring[i - 1] && r[i] in ring {
    }
  }

  lemma InsertKeepsPids(procs: map<nat, Process>, ring: seq<nat>, births: seq<nat>, issued: nat, a: nat,
                        procs': map<nat, Process>)
    requires Circle(procs, ring) && ring != [] && Circle(procs', [ring[0], a] + ring[1..])
    requires Pids(procs, ring, births, issued) && a in procs' && procs'[a].id == PidOf(issued + 1)
    requires forall x :: x in ring ==> x in procs && x in procs' && procs'[x].id == procs[x].id
    ensures births != [] && Pids(procs', [ring[0], a] + ring[1..], [births[0], issued + 1] + births[1..], issued + 1)
  {
    hide Circle, LinkedAt, PidOf;
    var r, b := [ring[0], a] + ring[1..], [births[0], issued + 1] + births[1..];
    forall i | 2 <= i < |r| ensures r[i] == ring[i - 1] && r[i] in ring && b[i] == births[i - 1] {
    }
  }

  lemma GrowKeepsState(procs: map<nat, Process>, ring: seq<nat>, births: seq<nat>, a: nat, live: map<nat, nat>, size: nat,
                       taken: set<nat>, issued: nat)
    requires RingState(procs, ring, births, live, taken, issued) && a !in live
    ensures RingState(procs, ring, births, live[a := size], taken, issued) && a !in ring
  {
  }

  lemma SkipIdKeepsState(procs: map<nat, Process>, ring: seq<nat>, births: seq<nat>, live: map<nat, nat>, taken: set<nat>,
                         issued: nat)
    requires RingState(procs, ring, births, live, taken, issued)
    ensures RingState(procs, ring, births, live, taken, issued + 1)
  {
  }

  lemma NextId(issued: nat)
    ensures (PidOf(issued + 1) + 1) % WORD == PidOf(issued + 2)
    ensures PidOf(0) == 0
  {
  }

  /** Where the heap puts the next process structure (0: nowhere). */
  function StructAddr(blocks: seq<Block>): nat {
    AllocAddr(HEAP_START, blocks, STRUCT_NEED)
  }

  /** kmalloc(sizeof(process_t)) */
  method AllocStruct(heap: KernelHeap) returns (a: nat)
    requires heap.Valid()
    modifies heap
    ensures heap.Valid() && a == StructAddr(old(heap.blocks))
    ensures if a == 0 then heap.live == old(heap.live)
            else Grants(old(heap.live), heap.live, a, STRUCT_NEED)
  {
    a := heap.Kmalloc(PROCESS_BYTES);
  }

  class Scheduler {
    const heap: KernelHeap
    const pages: PageAllocator
    var procs: map<nat, Process>  // the structures on the ring, by address
    var processList: nat
    var currentProcess: nat
    var nextPid: nat
    var ticks: nat
    ghost var ring: seq<nat>
    ghost var births: seq<nat>  // the number of each process on the ring, in order of creation
    ghost var issued: nat  // process ids handed out so far

    ghost predicate Valid()
      reads this, heap, pages, pages.bitmap
    {
      && heap.Valid() && pages.Valid()
      && RingState(procs, ring, births, heap.live, pages.taken, issued)
      && processList == (if ring == [] then 0 else ring[0])
      && (if ring == [] then currentProcess == 0 else currentProcess in ring)
      && nextPid == PidOf(issued + 1)
    }

    constructor (heap: KernelHeap, pages: PageAllocator)
      requires heap.Valid() && pages.Valid()
      ensures Valid() && ring == [] && issued == 0
      ensures this.heap == heap && this.pages == pages
    {
      this.heap, this.pages := heap, pages;
      procs := map[];
      processList, currentProcess, nextPid, ticks := 0, 0, 1, 0;
      ring, births, issued := [], [], 0;
    }

    /** scheduler_init: the running kernel becomes PID 0.  `ok` is false where the kernel panics. */
    method Init() returns (ok: bool)
      requires Valid()
      modifies this`procs, this`processList, this`currentProcess, this`ring, this`births, heap
      ensures Valid()
      ensures ok <==> StructAddr(old(heap.blocks)) != 0
      ensures !ok ==> ring == old(ring) && procs == old(procs) && heap.live == old(heap.live)
      ensures ok ==> ring == [StructAddr(old(heap.blocks))] && births == [0] && currentProcess == ring[0]
      ensures ok ==> Grants(old(heap.live), heap.live, ring[0], STRUCT_NEED)
    {
      hide KernelHeap.Valid, PageAllocator.Valid, StructAddr;
      var k := AllocStruct(heap);
      if k == 0 { return false; }
      procs := procs[k := Process(0, 0, 0, 1, k)];
      currentProcess, processList := k, k;
      ring, births := [k], [0];
      return true;
    }

    /** There is a process list, memory for a process structure, and a page for its stack. */
    ghost predicate CanCreate()
      reads this, heap, pages
    {
      ring != [] && StructAddr(heap.blocks) != 0 && pages.HasFree()
    }

    /** create_process: the new process goes right behind PID 0. */
    method CreateProcess() returns (r: int)
      requires Valid()
      modifies this`procs, this`nextPid, this`ring, this`births, this`issued, heap, pages, pages.bitmap
      ensures Valid()
      // fails exactly for want of a list, of memory for the structure, or of a page for the stack
      ensures ring != old(ring) <==> old(CanCreate())
      ensures ring == old(ring) ==> r == -1 && pages.taken == old(pages.taken) && births == old(births)
      // the structure stays allocated even when no page is left for the stack
      ensures if StructAddr(old(heap.blocks)) == 0 then heap.live == old(heap.live)
              else Grants(old(heap.live), heap.live, StructAddr(old(heap.blocks)), STRUCT_NEED)
      ensures ring != old(ring) ==>
                && ring == [old(ring)[0], StructAddr(old(heap.blocks))] + old(ring)[1..]
                && old(births) != [] && births == [old(births)[0], old(issued) + 1] + old(births)[1..]
                && ring[1] !in old(ring) && ring[1] in procs
                && r == (if old(nextPid) <= INT_MAX then old(nextPid) else old(nextPid) - WORD)
                && exists page :: LowestFree(page, pages.reserved, pages.maxBlocks, old(pages.taken))
                                  && IsNew(procs[ring[1]], old(nextPid), page) && pages.taken == old(pages.taken) + {page}
      ensures Untouched(old(procs), procs, old(ring))
    {
      hide KernelHeap.Valid, PageAllocator.Valid, RingState, StructAddr;
      var a := AllocStruct(heap);
      if a != 0 {
        GrowKeepsState(procs, ring, births, a, old(heap.live), heap.live[a], pages.taken, issued);
      }
      if ring != [] { NodeFacts(procs, ring, births, heap.live, pages.taken, issued, 0); }
      AllUntouched(procs, ring, births, heap.live, pages.taken, issued);
      if a == 0 || processList == 0 { return -1; }
      r := Admit(a);
    }

    /** The rest of create_process: the structure at `a` gets an id and a stack and joins the ring. */
    method Admit(a: nat) returns (r: int)
      requires Valid() && ring != [] && a !in ring && a != 0 && a in heap.live && PROCESS_BYTES <= heap.live[a]
      modifies this`procs, this`nextPid, this`ring, this`births, this`issued, pages, pages.bitmap
      ensures Valid()
      ensures ring == old(ring) || ring == [old(ring)[0], a] + old(ring)[1..]
      ensures ring == old(ring) ==> r == -1 && pages.taken == old(pages.taken) && births == old(births)
      ensures ring != old(ring) <==> old(pages.HasFree())
      ensures ring != old(ring) ==>
                && old(births) != [] && births == [old(births)[0], old(issued) + 1] + old(births)[1..]
                && a in procs
                && r == (if old(nextPid) <= INT_MAX then old(nextPid) else old(nextPid) - WORD)
                && exists page :: LowestFree(page, pages.reserved, pages.maxBlocks, old(pages.taken))
                                  && IsNew(procs[a], old(nextPid), page) && pages.taken == old(pages.taken) + {page}
      ensures Untouched(old(procs), procs, old(ring))
    {
      hide KernelHeap.Valid, PageAllocator.Valid, PageAllocator.HasFree, RingState, PidOf, Inserted;
      NodeFacts(procs, ring, births, heap.live, pages.taken, issued, 0);
      AllUntouched(procs, ring, births, heap.live, pages.taken, issued);
      NextId(issued);
      var pid := nextPid;
      nextPid := (nextPid + 1) % WORD;
      var stack := pages.AllocPage();
      if stack == 0 {
        SkipIdKeepsState(procs, ring, births, heap.live, pages.taken, issued);
        issued := issued + 1;
        return -1;
      }
      var p := Process(pid, stack + 4096 - 24, stack, 1, 0);
      assert LowestFree(stack / PAGE_SIZE, pages.reserved, pages.maxBlocks, old(pages.taken));
      assert stack == stack / PAGE_SIZE * 4096;
      InsertKeepsState(procs, ring, births, a, p, heap.live, old(pages.taken), stack / PAGE_SIZE, issued);
      LinkBehindHead(a, p);
      ring, births := [ring[0], a] + ring[1..], [births[0], issued + 1] + births[1..];
      issued := issued + 1;
      return if pid <= INT_MAX then pid else pid - WORD;
    }

    /** The stores that put the structure `p` at `a` behind the first one. */
    method LinkBehindHead(a: nat, p: Process)
      requires processList in procs && a != processList
      modifies this`procs
      ensures procs == Inserted(old(procs), processList, a, p)
    {
      procs := procs[a := p.(next := procs[processList].next)];
      procs := procs[processList := procs[processList].(next := a)];
    }

    /** yield: round robin. */
    method Yield()
      requires Valid()
      modifies this`currentProcess, this`ticks
      ensures Valid()
      ensures ring == [] ==> currentProcess == old(currentProcess)
      ensures forall i :: 0 <= i < |ring| && old(currentProcess) == ring[i] ==>
                currentProcess == ring[Next(i, |ring|)]
      ensures ticks == if |ring| <= 1 then old(ticks) else (old(ticks) + 1) % WORD
    {
      hide KernelHeap.Valid, PageAllocator.Valid, OwnBlocks, OwnStacks, Pids;
      ghost var i := if ring == [] then 0 else var i :| 0 <= i < |ring| && ring[i] == currentProcess; i;
      assert ring != [] ==> LinkedAt(procs, ring, i);
      if currentProcess == 0 || currentProcess == procs[currentProcess].next { return; }
      currentProcess := procs[currentProcess].next;
      ticks := (ticks + 1) % WORD;
    }

    /** Turns of the round robin: who runs when, during n yields. */
    method RunTurns(n: nat) returns (ran: seq<nat>)
      requires Valid() && ring != []
      modifies this`currentProcess, this`ticks
      ensures Valid()
      ensures forall at :: 0 <= at < |ring| && old(currentProcess) == ring[at] ==>
                ran == Turns(ring, at, n) && currentProcess == ring[Later(at, n, |ring|)]
      ensures n == |ring| ==> currentProcess == old(currentProcess)
      ensures n == |ring| ==> |ran| == n && forall a :: a in ring ==> multiset(ran)[a] == 1
    {
      hide KernelHeap.Valid, PageAllocator.Valid, RingState, Turns;
      OncePerNode(procs, ring, births, heap.live, pages.taken, issued);
      ghost var at :| 0 <= at < |ring| && ring[at] == currentProcess;
      ran := [];
      NoTurns(ring, at);
      for i := 0 to n
        invariant Valid() && currentProcess == ring[Later(at, i, |ring|)] && ran == Turns(ring, at, i)
      {
        TurnsGrow(ring, at, i);
        ran := ran + [currentProcess];
        Yield();
      }
      LaterAround(at, |ring|, |ring|);
      RoundRobin(ring, at);
    }

    /** scheduler_kill: removes the first process behind PID 0 that has this id, with its stack and structure. */
    method Kill(pid: nat) returns (ok: bool)
      requires Valid()
      modifies this`procs, this`currentProcess, this`ring, this`births, heap, pages, pages.bitmap
      ensures Valid()
      ensures ok <==> pid != 0 && old(ring) != [] && Find(old(procs), old(ring), pid, 1) < old(|ring|)
      ensures !ok ==>
        && ring == old(ring) && births == old(births) && procs == old(procs) && currentProcess == old(currentProcess)
        && heap.live == old(heap.live) && pages.taken == old(pages.taken)
      ensures ok ==> var k := Find(old(procs), old(ring), pid, 1);
                && ring == Without(old(ring), k) && k < |old(births)| && births == Without(old(births), k)
                && heap.live == old(heap.live) - {old(ring)[k]}
                && pages.taken == old(pages.taken) - {old(procs)[old(ring)[k]].stackBase / PAGE_SIZE}
                && currentProcess == (if old(currentProcess) != old(ring)[k] then old(currentProcess)
                                      else old(ring)[Next(k, old(|ring|))])
      ensures Untouched(old(procs), procs, ring)
    {
      hide KernelHeap.Valid, PageAllocator.Valid, OwnBlocks, OwnStacks, Pids;
      AllUntouched(procs, ring, births, heap.live, pages.taken, issued);
      if processList == 0 { return false; }
      if pid == 0 { return false; }
      var prev := processList;
      assert LinkedAt(procs, ring, 0);
      var cur := procs[processList].next;
      ghost var k := 1;
      while cur != 0 && cur != processList
        invariant 1 <= k <= |ring| && prev == ring[k - 1] && cur == (if k == |ring| then ring[0] else ring[k])
        invariant Find(procs, ring, pid, 1) == Find(procs, ring, pid, k)
        decreases |ring| - k
      {
        if procs[cur].id == pid {
          Unlink(prev, cur, k);
          return true;
        }
        assert LinkedAt(procs, ring, k);
        prev := cur;
        cur := procs[cur].next;
        k := k + 1;
      }
      return false;
    }

    /** The body of scheduler_kill once the victim is found. */
    method Unlink(prev: nat, cur: nat, ghost k: nat)
      requires Valid() && 1 <= k < |ring| && prev == ring[k - 1] && cur == ring[k]
      modifies this`procs, this`currentProcess, this`ring, this`births, heap, pages, pages.bitmap
      ensures Valid()
      ensures ring == Without(old(ring), k) && k < |old(births)| && births == Without(old(births), k)
      ensures heap.live == old(heap.live) - {cur}
      ensures pages.taken == old(pages.taken) - {old(procs)[cur].stackBase / PAGE_SIZE}
      ensures currentProcess == if old(currentProcess) != cur then old(currentProcess)
                                else old(ring)[Next(k, old(|ring|))]
      ensures Untouched(old(procs), procs, ring)
    {
      hide KernelHeap.Valid, PageAllocator.Valid, RingState, Without, Next;
      UnlinkKeepsState(procs, ring, births, k, heap.live, pages.taken, issued);
      var next, stack := procs[cur].next, procs[cur].stackBase;
      procs := procs[prev := procs[prev].(next := next)];
      if currentProcess == cur { currentProcess := next; }  // on the ring, next is never null
      if stack != 0 { pages.FreePage(stack); }
      heap.Kfree(cur);
      ring, births := Without(ring, k), Without(births, k);
    }

    /** A process that was created is killed again by its id, as a caller would who goes by what create_process returns.
        That undoes the creation exactly unless the id is 0, which cannot be killed, or 2^32 - 1, which reads as failure. */
    method KillUndoesCreate() returns (undone: bool)
      requires Valid()
      modifies this`procs, this`currentProcess, this`nextPid, this`ring, this`births, this`issued, heap, pages, pages.bitmap
      ensures Valid() && currentProcess == old(currentProcess)
      ensures undone <==> old(CanCreate()) && 0 < old(nextPid) < WORD - 1
      ensures undone ==> heap.blocks == old(heap.blocks)
      ensures undone || !old(CanCreate()) ==> ring == old(ring) && births == old(births) && pages.taken == old(pages.taken)
      ensures Untouched(old(procs), procs, old(ring))
      ensures !undone && old(CanCreate()) ==> ring == [old(ring)[0], StructAddr(old(heap.blocks))] + old(ring)[1..]
    {
      hide RingState, PageAllocator.Valid, StructAddr, PageAllocator.HasFree, LowestFree, IsNew, Untouched, Without;
      var pid := nextPid;
      var r := CreateProcess();
      if r == -1 { return false; }
      ghost var page :| LowestFree(page, pages.reserved, pages.maxBlocks, old(pages.taken)) && IsNew(procs[ring[1]], pid, page)
                        && pages.taken == old(pages.taken) + {page};
      PageOf(procs[ring[1]], pid, page, pages.reserved, pages.maxBlocks, old(pages.taken));
      NewestFirst(procs, ring, births, heap.live, pages.taken, issued);
      assert Find(procs, ring, pid, 1) == 1;
      ghost var made := procs;
      SecondTakenOut(old(ring), ring);
      SecondTakenOut(old(births), births);
      undone := Kill(pid);
      UntouchedTwice(old(procs), made, procs, old(ring), ring);
      if undone {
        WellFormedCanonical(heap.blocks, old(heap.blocks));
      }
    }

    /** scheduler_count_internal */
    method Count() returns (count: nat)
      requires Valid()
      ensures count == if |ring| <= 4097 then |ring| else 4097
    {
      hide KernelHeap.Valid, PageAllocator.Valid, OwnBlocks, OwnStacks, Pids;
      if processList == 0 { return 0; }
      assert LinkedAt(procs, ring, 0);
      count := 1;
      var p := procs[processList].next;
      while p != 0 && p != processList
        invariant 1 <= count <= |ring| && count <= 4096 && p == (if count == |ring| then ring[0] else ring[count])
        decreases |ring| - count
      {
        assert count < |ring| && p == ring[count] && LinkedAt(procs, ring, count);
        count := count + 1;
        p := procs[p].next;
        if count > 4096 { break; }
      }
    }

    /** scheduler_snapshot */
    method Snapshot(maxCount: int) returns (out: seq<ProcInfo>)
      requires Valid()
      ensures |out| == if maxCount <= 0 then 0 else if |ring| <= maxCount then |ring| else maxCount
      ensures forall i :: 0 <= i < |out| ==>
                out[i] == ProcInfo(procs[ring[i]].id, procs[ring[i]].state, ring[i] == currentProcess)
      ensures out != [] ==> out[0].id == 0
      ensures issued < WORD ==> forall i, j :: 1 <= i < j < |out| ==> out[j].id < out[i].id  // newest first
    {
      hide KernelHeap.Valid, PageAllocator.Valid, RingState, LinkedAt;
      out := [];
      NewestFirst(procs, ring, births, heap.live, pages.taken, issued);
      if maxCount <= 0 || processList == 0 { return; }
      var p := processList;
      while true
        invariant |out| <= maxCount && |out| < |ring| && p == ring[|out|]
        invariant forall i :: 0 <= i < |out| ==>
                    out[i] == ProcInfo(procs[ring[i]].id, procs[ring[i]].state, ring[i] == currentProcess)
        decreases |ring| - |out|
      {
        if |out| >= maxCount { break; }
        Onward(procs, ring, births, heap.live, pages.taken, issued, |out|);
        out := out + [ProcInfo(procs[p].id, procs[p].state, p == currentProcess)];
        p := procs[p].next;
        if !(p != 0 && p != processList) { break; }
      }
    }
  }

  // ---------------------------------------------------------------- round robin

  /** The processes that run during the next `n` turns when position `at` runs now. */
  function Turns(ring: seq<nat>, at: nat, n: nat): (t: seq<nat>)
    requires at < |ring|
    decreases n
  {
    if n == 0 then [] else [ring[at]] + Turns(ring, Next(at, |ring|), n - 1)
  }

  /** The position that runs after n turns. */
  function Later(at: nat, n: nat, len: nat): (p: nat)
    requires at < len
    ensures p < len
    decreases n
  {
    if n == 0 then at else Next(Later(at, n - 1, len), len)
  }

  lemma {:induction false} LaterAround(at: nat, n: nat, len: nat)
    requires at < len && n <= len
    ensures Later(at, n, len) == if at + n < len then at + n else at + n - len
    decreases n
  {
    if n > 0 { LaterAround(at, n - 1, len); }
  }

  lemma {:induction false} LaterNext(at: nat, n: nat, len: nat)
    requires at < len
    ensures Later(Next(at, len), n, len) == Later(at, n + 1, len)
    decreases n
  {
    if n > 0 { LaterNext(at, n - 1, len); }
  }

  lemma NoTurns(ring: seq<nat>, at: nat)
    requires at < |ring|
    ensures Turns(ring, at, 0) == []
  {
  }

  lemma {:induction false} TurnsGrow(ring: seq<nat>, at: nat, n: nat)
    requires at < |ring|
    ensures Turns(ring, at, n + 1) == Turns(ring, at, n) + [ring[Later(at, n, |ring|)]]
    decreases n
  {
    if n > 0 {
      TurnsGrow(ring, Next(at, |ring|), n - 1);
      LaterNext(at, n - 1, |ring|);
    }
  }

  lemma OncePerNode(procs: map<nat, Process>, ring: seq<nat>, births: seq<nat>, live: map<nat, nat>, taken: set<nat>,
                    issued: nat)
    requires RingState(procs, ring, births, live, taken, issued)
    ensures forall i, j :: 0 <= i < j < |ring| ==> ring[i] != ring[j]
  {
  }

  lemma {:induction false} TurnsFromStart(ring: seq<nat>, at: nat, n: nat)
    requires at < |ring| && at + n <= |ring|
    ensures Turns(ring, at, n) == ring[at..at + n]
    decreases n
  {
    if n > 1 { TurnsFromStart(ring, at + 1, n - 1); }
  }

  lemma {:induction false} TurnsAround(ring: seq<nat>, at: nat, extra: nat)
    requires at < |ring| && extra <= |ring|
    ensures Turns(ring, at, |ring| - at + extra) == ring[at..] + ring[..extra]
    decreases |ring| - at
  {
    if at + 1 < |ring| {
      TurnsAround(ring, at + 1, extra);
      assert ring[at..] == [ring[at]] + ring[at + 1..];
    } else {
      TurnsFromStart(ring, 0, extra);
      assert ring[at..] == [ring[at]];
    }
  }

  /** Fairness: in any |ring| consecutive turns every process of the ring runs exactly once. */
  lemma RoundRobin(ring: seq<nat>, at: nat)
    requires at < |ring| && forall i, j :: 0 <= i < j < |ring| ==> ring[i] != ring[j]
    ensures |Turns(ring, at, |ring|)| == |ring|
    ensures forall a :: a in ring ==> multiset(Turns(ring, at, |ring|))[a] == 1
  {
    TurnsAround(ring, at, at);
    assert ring == ring[..at] + ring[at..];
    forall a | a in ring ensures multiset(ring)[a] == 1 {
      OccursOnce(ring, a);
    }
  }

  lemma {:induction false} OccursOnce(s: seq<nat>, a: nat)
    requires forall i, j :: 0 <= i < j < |s| ==> s[i] != s[j]
    ensures multiset(s)[a] == if a in s then 1 else 0
    decreases |s|
  {
    if s != [] {
      assert s == [s[0]] + s[1..];
      OccursOnce(s[1..], a);
    }
  }
}
