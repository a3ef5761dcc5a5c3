/** The kernel heap of src/kernel/mm.c: a first-fit list of blocks laid out back to back.

    `Block` sequences are the abstract heap.  `KernelHeap` is the heap as the kernel keeps it: block headers
    stored at addresses and chained through their `next` fields, rewritten in place. */
module Heap {
  import opened Words

  const HEAP_START: nat := 0x1000000
  const HEAP_SIZE: nat := 0x1000000
  const HEADER: nat := 12
  const MIN_SPLIT: nat := 8

  /** A block header as stored in memory; `next == 0` is the null pointer. */
  datatype Header = Header(size: nat, next: nat, free: bool)

  /** A block without its address: the address follows from the blocks before it. */
  datatype Block = Block(size: nat, free: bool)

  /** heap_align8 on 32-bit unsigned words: the addition wraps. */
  function Align8(value: nat): nat {
    var v := (value + 7) % WORD;
    v - v % 8
  }

  /** For every request the kernel can be asked for, rounding yields 0 exactly when there is nothing to serve. */
  lemma Align8Meaning(value: nat)
    requires value < WORD
    ensures Align8(value) % 8 == 0
    ensures value <= WORD - 8 ==> value <= Align8(value) < value + 8
    ensures WORD - 8 < value ==> Align8(value) == 0
  {
    if WORD - 8 < value {
      assert (value + 7) % WORD == value + 7 - WORD;
    }
  }

  // ---------------------------------------------------------------- abstract heap

  /** Bytes covered by the blocks, headers included. */
  function Span(bs: seq<Block>): nat {
    if bs == [] then 0 else HEADER + bs[0].size + Span(bs[1..])
  }

  predicate NoFreeNeighbours(bs: seq<Block>) {
    forall i :: 0 <= i < |bs| - 1 ==> !(bs[i].free && bs[i + 1].free)
  }

  predicate BigEnough(bs: seq<Block>) {
    forall i :: 0 <= i < |bs| ==> MIN_SPLIT <= bs[i].size
  }

  /** The heap invariant: the blocks tile the heap area and free space is never fragmented across a boundary. */
  predicate WellFormed(bs: seq<Block>) {
    bs != [] && Span(bs) == HEAP_SIZE && BigEnough(bs) && NoFreeNeighbours(bs)
  }

  const INITIAL: seq<Block> := [Block(HEAP_SIZE - HEADER, true)]

  /** Payload address and size of every block in use. */
  function Live(at: nat, bs: seq<Block>): map<nat, nat>
    decreases |bs|
  {
    if bs == [] then map[]
    else
      var rest := Live(at + HEADER + bs[0].size, bs[1..]);
      if bs[0].free then rest else rest[at + HEADER := bs[0].size]
  }

  function UsedBytes(bs: seq<Block>): nat {
    if bs == [] then 0 else (if bs[0].free then 0 else bs[0].size) + UsedBytes(bs[1..])
  }

  function FreeBytes(bs: seq<Block>): nat {
    if bs == [] then 0 else (if bs[0].free then bs[0].size else 0) + FreeBytes(bs[1..])
  }

  predicate Fits(b: Block, need: nat) {
    b.free && need <= b.size
  }

  /** What serving `need` bytes turns a fitting block into. */
  function Carve(b: Block, need: nat): seq<Block>
    requires Fits(b, need)
  {
    if need + HEADER + MIN_SPLIT <= b.size
    then [Block(need, false), Block(b.size - need - HEADER, true)]
    else [Block(b.size, false)]
  }

  /** First fit: the heap after serving `need` bytes (unchanged when nothing fits). */
  function Alloc(bs: seq<Block>, need: nat): seq<Block> {
    if bs == [] then []
    else if Fits(bs[0], need) then Carve(bs[0], need) + bs[1..]
    else [bs[0]] + Alloc(bs[1..], need)
  }

  /** First fit: the payload address returned (0 when nothing fits). */
  function AllocAddr(at: nat, bs: seq<Block>, need: nat): nat
    decreases |bs|
  {
    if bs == [] then 0
    else if Fits(bs[0], need) then at + HEADER
    else AllocAddr(at + HEADER + bs[0].size, bs[1..], need)
  }

  /** The block whose payload is at `p` marked free. */
  function MarkFree(at: nat, bs: seq<Block>, p: nat): seq<Block>
    decreases |bs|
  {
    if bs == [] then []
    else if at + HEADER == p then [Block(bs[0].size, true)] + bs[1..]
    else [bs[0]] + MarkFree(at + HEADER + bs[0].size, bs[1..], p)
  }

  /** Every run of neighbouring free blocks merged into one. */
  function Coalesce(bs: seq<Block>): seq<Block>
    decreases |bs|
  {
    if |bs| < 2 then bs
    else if bs[0].free && bs[1].free then Coalesce([Block(bs[0].size + HEADER + bs[1].size, true)] + bs[2..])
    else [bs[0]] + Coalesce(bs[1..])
  }

  function Free(bs: seq<Block>, p: nat): seq<Block> {
    Coalesce(MarkFree(HEAP_START, bs, p))
  }

  // ---------------------------------------------------------------- lemmas about the abstract heap

  lemma {:induction false} SpanAppend(a: seq<Block>, b: seq<Block>)
    ensures Span(a + b) == Span(a) + Span(b)
  {
    if a == [] {
      assert a + b == b;
    } else {
      assert (a + b)[1..] == a[1..] + b;
      SpanAppend(a[1..], b);
    }
  }

  lemma LiveCons(at: nat, b: Block, rest: seq<Block>)
    ensures Span([b] + rest) == HEADER + b.size + Span(rest)
    ensures Live(at, [b] + rest) ==
            if b.free then Live(at + HEADER + b.size, rest)
            else Live(at + HEADER + b.size, rest)[at + HEADER := b.size]
  {
    assert ([b] + rest)[1..] == rest;
  }

  lemma {:induction false} LiveAppend(at: nat, a: seq<Block>, b: seq<Block>)
    ensures Live(at, a + b) == Live(at + Span(a), b) + Live(at, a)
    decreases |a|
  {
    if a == [] {
      assert a + b == b;
    } else {
      assert (a + b)[1..] == a[1..] + b;
      LiveAppend(at + HEADER + a[0].size, a[1..], b);
    }
  }

  /** Live payloads lie inside the area the blocks cover, each behind its own header. */
  lemma LiveBounds(at: nat, bs: seq<Block>, p: nat)
    requires p in Live(at, bs)
    ensures at + HEADER <= p && p + Live(at, bs)[p] <= at + Span(bs)
    ensures BigEnough(bs) ==> MIN_SPLIT <= Live(at, bs)[p]
    decreases |bs|
  {
    if bs[0].free || p != at + HEADER {
      LiveBounds(at + HEADER + bs[0].size, bs[1..], p);
    }
  }

  lemma {:induction false} LiveDisjoint(at: nat, bs: seq<Block>, p: nat, q: nat)
    requires p in Live(at, bs) && q in Live(at, bs) && p < q
    ensures p + Live(at, bs)[p] + HEADER <= q
    decreases |bs|
  {
    var next := at + HEADER + bs[0].size;
    if p == at + HEADER && !bs[0].free {
      LiveBounds(next, bs[1..], q);
      if p in Live(next, bs[1..]) { LiveBounds(next, bs[1..], p); }
    } else {
      LiveBounds(next, bs[1..], p);
      LiveDisjoint(next, bs[1..], p, q);
    }
  }

  /** Accounting: every byte of the area is a header, in use, or free. */
  lemma {:induction false} BytesAccounted(bs: seq<Block>)
    ensures UsedBytes(bs) + FreeBytes(bs) + HEADER * |bs| == Span(bs)
    decreases |bs|
  {
    if bs != [] { BytesAccounted(bs[1..]); }
  }

  /** A heap without free neighbours is determined by its live blocks alone. */
  lemma {:induction false} Canonical(at: nat, a: seq<Block>, b: seq<Block>)
    requires NoFreeNeighbours(a) && NoFreeNeighbours(b)
    requires Span(a) == Span(b) && Live(at, a) == Live(at, b)
    ensures a == b
    decreases |a|
  {
    if a == [] || b == [] {
    } else {
      SameHead(at, a, b);
      SameHead(at, b, a);
      var next := at + HEADER + a[0].size;
      assert Live(next, a[1..]) == Live(next, b[1..]) by {
        HeadNotBelow(at, a);
        HeadNotBelow(at, b);
        if !a[0].free {
          assert Live(next, a[1..]) == Live(at, a) - {at + HEADER};
          assert Live(next, b[1..]) == Live(at, b) - {at + HEADER};
        }
      }
      Canonical(next, a[1..], b[1..]);
    }
  }

  lemma HeadNotBelow(at: nat, bs: seq<Block>)
    requires bs != []
    ensures at + HEADER !in Live(at + HEADER + bs[0].size, bs[1..])
  {
    var next := at + HEADER + bs[0].size;
    if at + HEADER in Live(next, bs[1..]) { LiveBounds(next, bs[1..], at + HEADER); }
  }

  lemma SameHead(at: nat, a: seq<Block>, b: seq<Block>)
    requires a != [] && b != []
    requires NoFreeNeighbours(a) && NoFreeNeighbours(b)
    requires Span(a) == Span(b) && Live(at, a) == Live(at, b)
    ensures a[0].free == b[0].free && a[0].size <= b[0].size
  {
    HeadNotBelow(at, a);
    HeadNotBelow(at, b);
    assert a[0].free <==> at + HEADER !in Live(at, a);
    assert b[0].free <==> at + HEADER !in Live(at, b);
    if !a[0].free {
      assert Live(at, a)[at + HEADER] == a[0].size;
      assert Live(at, b)[at + HEADER] == b[0].size;
    } else if b[0].size < a[0].size {
      var q := at + HEADER + b[0].size + HEADER;
      assert b == [b[0]] + b[1..];
      assert |b| > 1 && !b[1].free;
      assert q in Live(at, b);
      assert q in Live(at + HEADER + a[0].size, a[1..]);
      LiveBounds(at + HEADER + a[0].size, a[1..], q);
    }
  }

  lemma {:induction false} CoalesceProps(at: nat, bs: seq<Block>)
    ensures Span(Coalesce(bs)) == Span(bs)
    ensures Live(at, Coalesce(bs)) == Live(at, bs)
    ensures NoFreeNeighbours(Coalesce(bs))
    ensures BigEnough(bs) ==> BigEnough(Coalesce(bs))
    ensures bs != [] ==> Coalesce(bs) != [] && Coalesce(bs)[0].free == bs[0].free
    decreases |bs|
  {
    if |bs| < 2 {
    } else if bs[0].free && bs[1].free {
      var m := [Block(bs[0].size + HEADER + bs[1].size, true)] + bs[2..];
      CoalesceProps(at, m);
      assert m[1..] == bs[2..] && bs[1..][1..] == bs[2..];
    } else {
      CoalesceProps(at + HEADER + bs[0].size, bs[1..]);
      var c := Coalesce(bs[1..]);
      assert ([bs[0]] + c)[1..] == c;
    }
  }

  lemma {:induction false} MarkFreeSizes(at: nat, bs: seq<Block>, p: nat)
    ensures Span(MarkFree(at, bs, p)) == Span(bs) && |MarkFree(at, bs, p)| == |bs|
    ensures forall i :: 0 <= i < |bs| ==> MarkFree(at, bs, p)[i].size == bs[i].size
    decreases |bs|
  {
    if bs != [] && at + HEADER != p {
      var next := at + HEADER + bs[0].size;
      MarkFreeSizes(next, bs[1..], p);
      LiveCons(at, bs[0], MarkFree(next, bs[1..], p));
    }
  }

  lemma UpdateRemove(m: map<nat, nat>, k: nat, v: nat, p: nat)
    requires k != p
    ensures (m - {p})[k := v] == m[k := v] - {p}
  {
  }

  lemma {:induction false} MarkFreeLive(at: nat, bs: seq<Block>, p: nat)
    requires p in Live(at, bs)
    ensures Live(at, MarkFree(at, bs, p)) == Live(at, bs) - {p}
    decreases |bs|
  {
    HeadNotBelow(at, bs);
    var next := at + HEADER + bs[0].size;
    if at + HEADER == p {
      LiveCons(at, Block(bs[0].size, true), bs[1..]);
    } else {
      MarkFreeLive(next, bs[1..], p);
      LiveCons(at, bs[0], MarkFree(next, bs[1..], p));
      UpdateRemove(Live(next, bs[1..]), at + HEADER, bs[0].size, p);
    }
  }

  lemma {:induction false} AllocSpan(at: nat, bs: seq<Block>, need: nat)
    ensures Span(Alloc(bs, need)) == Span(bs)
    ensures AllocAddr(at, bs, need) == 0 ==> Alloc(bs, need) == bs
    ensures AllocAddr(at, bs, need) != 0 ==> at + HEADER <= AllocAddr(at, bs, need)
    decreases |bs|
  {
    if bs == [] {
    } else if Fits(bs[0], need) {
      var c := Carve(bs[0], need);
      SpanAppend(c, bs[1..]);
      assert |c| == 2 ==> c == [c[0]] + [c[1]] && [c[1]] == [c[1]] + [];
    } else {
      AllocSpan(at + HEADER + bs[0].size, bs[1..], need);
      LiveCons(at, bs[0], Alloc(bs[1..], need));
    }
  }

  lemma {:induction false} AllocShape(bs: seq<Block>, need: nat)
    requires MIN_SPLIT <= need && BigEnough(bs) && NoFreeNeighbours(bs)
    ensures BigEnough(Alloc(bs, need)) && NoFreeNeighbours(Alloc(bs, need))
    ensures bs != [] ==> Alloc(bs, need) != [] && (Alloc(bs, need)[0].free ==> bs[0].free)
    decreases |bs|
  {
    if bs != [] && !Fits(bs[0], need) {
      AllocShape(bs[1..], need);
    }
  }

  /** Exactly one block has become live, at `p`: it holds `need` bytes, and wastes less than a splittable rest. */
  predicate Grants(live: map<nat, nat>, live': map<nat, nat>, p: nat, need: nat) {
    p !in live && p in live' && live' == live[p := live'[p]] && need <= live'[p] < need + HEADER + MIN_SPLIT
  }

  /** Carving a block covers the same bytes and makes one payload. */
  lemma CarveLive(at: nat, b: Block, need: nat)
    requires Fits(b, need)
    ensures Span(Carve(b, need)) == HEADER + b.size
    ensures var live := Live(at, Carve(b, need));
            at + HEADER in live && live == map[at + HEADER := live[at + HEADER]]
            && need <= live[at + HEADER] < need + HEADER + MIN_SPLIT
  {
    var c := Carve(b, need);
    if |c| == 1 {
      OneSpan(c[0]);
      assert c[1..] == [];
    } else {
      OneSpan(c[0]);
      OneSpan(c[1]);
      SpanAppend([c[0]], [c[1]]);
      assert c == [c[0]] + [c[1]] && c[1..] == [c[1]] && [c[1]][1..] == [];
      assert Live(at + HEADER + c[0].size, [c[1]]) == map[];
    }
  }

  /** The granted block is new, holds the request, and is the only change to the live map. */
  lemma {:induction false} AllocLive(at: nat, bs: seq<Block>, need: nat)
    requires AllocAddr(at, bs, need) != 0
    ensures Grants(Live(at, bs), Live(at, Alloc(bs, need)), AllocAddr(at, bs, need), need)
    decreases |bs|
  {
    hide Carve;
    HeadNotBelow(at, bs);
    var next := at + HEADER + bs[0].size;
    if Fits(bs[0], need) {
      var c := Carve(bs[0], need);
      LiveAppend(at, c, bs[1..]);
      CarveLive(at, bs[0], need);
    } else {
      AllocLive(next, bs[1..], need);
      AllocSpan(next, bs[1..], need);
      var r := Alloc(bs[1..], need);
      assert ([bs[0]] + r)[1..] == r;
    }
  }

  /** First fit means: null exactly when nothing fits, otherwise the fitting block at the lowest address. */
  lemma {:induction false} AllocIsFirstFit(at: nat, bs: seq<Block>, need: nat) returns (k: nat)
    ensures k <= |bs| && forall i :: 0 <= i < k ==> !bs[i].free || bs[i].size < need
    ensures k < |bs| ==> bs[k].free && need <= bs[k].size && AllocAddr(at, bs, need) == at + Span(bs[..k]) + HEADER
    ensures k == |bs| <==> AllocAddr(at, bs, need) == 0
    decreases |bs|
  {
    if bs == [] {
      k := 0;
    } else if Fits(bs[0], need) {
      k := 0;
    } else {
      var j := AllocIsFirstFit(at + HEADER + bs[0].size, bs[1..], need);
      k := j + 1;
      assert bs[..k][1..] == bs[1..][..j];
      forall i | 0 <= i < k ensures !bs[i].free || bs[i].size < need {
        if i > 0 { assert bs[i] == bs[1..][i - 1]; }
      }
    }
  }

  lemma AllocWellFormed(bs: seq<Block>, need: nat)
    requires WellFormed(bs) && MIN_SPLIT <= need
    ensures WellFormed(Alloc(bs, need))
  {
    AllocSpan(HEAP_START, bs, need);
    AllocShape(bs, need);
  }

  lemma AllocGrants(bs: seq<Block>, need: nat)
    requires WellFormed(bs) && MIN_SPLIT <= need
    ensures WellFormed(Alloc(bs, need))
    ensures var p := AllocAddr(HEAP_START, bs, need);
            if p == 0 then Alloc(bs, need) == bs
            else Grants(Live(HEAP_START, bs), Live(HEAP_START, Alloc(bs, need)), p, need)
  {
    AllocWellFormed(bs, need);
    AllocSpan(HEAP_START, bs, need);
    if AllocAddr(HEAP_START, bs, need) != 0 { AllocLive(HEAP_START, bs, need); }
  }

  lemma FreeWellFormed(bs: seq<Block>, p: nat)
    requires WellFormed(bs) && p in Live(HEAP_START, bs)
    ensures WellFormed(Free(bs, p))
    ensures Live(HEAP_START, Free(bs, p)) == Live(HEAP_START, bs) - {p}
  {
    MarkFreeSizes(HEAP_START, bs, p);
    MarkFreeLive(HEAP_START, bs, p);
    CoalesceProps(HEAP_START, MarkFree(HEAP_START, bs, p));
  }

  // ---------------------------------------------------------------- theorems over runs

  lemma WellFormedCanonical(a: seq<Block>, b: seq<Block>)
    requires WellFormed(a) && WellFormed(b) && Live(HEAP_START, a) == Live(HEAP_START, b)
    ensures a == b
  {
    Canonical(HEAP_START, a, b);
  }

  lemma FreeUndoesAlloc(bs: seq<Block>, need: nat)
    requires WellFormed(bs) && MIN_SPLIT <= need && AllocAddr(HEAP_START, bs, need) != 0
    ensures Free(Alloc(bs, need), AllocAddr(HEAP_START, bs, need)) == bs
  {
    var p := AllocAddr(HEAP_START, bs, need);
    AllocLive(HEAP_START, bs, need);
    AllocWellFormed(bs, need);
    FreeWellFormed(Alloc(bs, need), p);
    assert Live(HEAP_START, Alloc(bs, need)) - {p} == Live(HEAP_START, bs);
    WellFormedCanonical(Free(Alloc(bs, need), p), bs);
  }

  lemma FreeOrderIrrelevant(bs: seq<Block>, p: nat, q: nat)
    requires WellFormed(bs) && p != q && p in Live(HEAP_START, bs) && q in Live(HEAP_START, bs)
    ensures Free(Free(bs, p), q) == Free(Free(bs, q), p)
  {
    FreeWellFormed(bs, p);
    FreeWellFormed(bs, q);
    FreeWellFormed(Free(bs, p), q);
    FreeWellFormed(Free(bs, q), p);
    assert Live(HEAP_START, bs) - {p} - {q} == Live(HEAP_START, bs) - {q} - {p};
    WellFormedCanonical(Free(Free(bs, p), q), Free(Free(bs, q), p));
  }

  datatype Op = Request(size: nat) | Release(p: nat)

  predicate ValidRequest(size: nat) {
    size != 0 && Align8(size) != 0 && Align8(size) <= HEAP_SIZE
  }

  /** Callers may free live pointers only; the kernel does not check more than the range. */
  predicate Legal(bs: seq<Block>, op: Op) {
    match op
    case Request(size) => size < WORD
    case Release(p) => p in Live(HEAP_START, bs)
  }

  function Step(bs: seq<Block>, op: Op): seq<Block> {
    match op
    case Request(size) => if ValidRequest(size) then Alloc(bs, Align8(size)) else bs
    case Release(p) => Free(bs, p)
  }

  predicate LegalRun(bs: seq<Block>, ops: seq<Op>)
    decreases |ops|
  {
    ops == [] || (Legal(bs, ops[0]) && LegalRun(Step(bs, ops[0]), ops[1..]))
  }

  function Run(bs: seq<Block>, ops: seq<Op>): seq<Block>
    decreases |ops|
  {
    if ops == [] then bs else Run(Step(bs, ops[0]), ops[1..])
  }

  lemma StepWellFormed(bs: seq<Block>, op: Op)
    requires WellFormed(bs) && Legal(bs, op)
    ensures WellFormed(Step(bs, op))
  {
    match op
    case Request(size) =>
      Align8Meaning(size);
      if ValidRequest(size) { AllocWellFormed(bs, Align8(size)); }
    case Release(p) => FreeWellFormed(bs, p);
  }

  /** Over every run: the blocks tile the heap, no two neighbours are free, every byte is accounted for, and
      live payloads are disjoint and inside the heap area. */
  lemma {:induction false} EveryRun(bs: seq<Block>, ops: seq<Op>)
    requires WellFormed(bs) && LegalRun(bs, ops)
    ensures var h := Run(bs, ops);
            WellFormed(h) &&
            UsedBytes(h) + FreeBytes(h) + HEADER * |h| == HEAP_SIZE &&
            (forall p :: p in Live(HEAP_START, h) ==>
               HEAP_START + HEADER <= p && p + Live(HEAP_START, h)[p] <= HEAP_START + HEAP_SIZE) &&
            (forall p, q :: p in Live(HEAP_START, h) && q in Live(HEAP_START, h) && p < q ==>
               p + Live(HEAP_START, h)[p] + HEADER <= q)
    decreases |ops|
  {
    if ops == [] {
      BytesAccounted(bs);
      forall p | p in Live(HEAP_START, bs)
        ensures HEAP_START + HEADER <= p && p + Live(HEAP_START, bs)[p] <= HEAP_START + HEAP_SIZE
      { LiveBounds(HEAP_START, bs, p); }
      forall p, q | p in Live(HEAP_START, bs) && q in Live(HEAP_START, bs) && p < q
        ensures p + Live(HEAP_START, bs)[p] + HEADER <= q
      { LiveDisjoint(HEAP_START, bs, p, q); }
    } else {
      StepWellFormed(bs, ops[0]);
      EveryRun(Step(bs, ops[0]), ops[1..]);
    }
  }

  /** Two runs from boot that leave the same blocks live leave the same heap, whatever happened in between;
      in particular a run that frees everything ends in the initial single block. */
  lemma RunsAgree(ops1: seq<Op>, ops2: seq<Op>)
    requires LegalRun(INITIAL, ops1) && LegalRun(INITIAL, ops2)
    requires Live(HEAP_START, Run(INITIAL, ops1)) == Live(HEAP_START, Run(INITIAL, ops2))
    ensures Run(INITIAL, ops1) == Run(INITIAL, ops2)
  {
    EveryRun(INITIAL, ops1);
    EveryRun(INITIAL, ops2);
    WellFormedCanonical(Run(INITIAL, ops1), Run(INITIAL, ops2));
  }

  lemma AllFreedIsInitial(ops: seq<Op>)
    requires LegalRun(INITIAL, ops) && Live(HEAP_START, Run(INITIAL, ops)) == map[]
    ensures Run(INITIAL, ops) == INITIAL
  {
    RunsAgree(ops, []);
  }

  /** Which requests are served: every one but those for nothing or for more than rounding up to a multiple of 8 leaves in
      32 bits, provided that a free block is as large as the rounded size. */
  lemma RequestServed(bs: seq<Block>, size: nat)
    requires WellFormed(bs) && size < 0x1_0000_0000
    ensures var served := ValidRequest(size) && AllocAddr(HEAP_START, bs, Align8(size)) != 0;
            served <==> 0 < size <= 0xFFFF_FFF8 && exists i :: 0 <= i < |bs| && bs[i].free && (size + 7) / 8 * 8 <= bs[i].size
  {
    hide WellFormed;
    if 0 < size <= 0xFFFF_FFF8 {
      assert Align8(size) == (size + 7) / 8 * 8;
      var k := AllocIsFirstFit(HEAP_START, bs, Align8(size));
      if Align8(size) > HEAP_SIZE {
        forall i | 0 <= i < |bs| ensures bs[i].size < HEAP_SIZE {
          InHeap(bs, i);
        }
      }
    }
  }

  lemma InHeap(bs: seq<Block>, i: nat)
    requires WellFormed(bs) && i < |bs|
    ensures bs[i].size < HEAP_SIZE
  {
    SpanPart(bs, i);
  }

  lemma {:induction false} SpanPart(bs: seq<Block>, i: nat)
    requires i < |bs|
    ensures bs[i].size < Span(bs)
    decreases i
  {
    if i > 0 { SpanPart(bs[1..], i - 1); }
  }

  // ---------------------------------------------------------------- bytes in use

  lemma {:induction false} UsedAppend(a: seq<Block>, b: seq<Block>)
    ensures UsedBytes(a + b) == UsedBytes(a) + UsedBytes(b)
    decreases |a|
  {
    if a == [] {
      assert a + b == b;
    } else {
      assert (a + b)[1..] == a[1..] + b;
      UsedAppend(a[1..], b);
    }
  }

  lemma CarveUses(b: Block, need: nat)
    requires Fits(b, need)
    ensures var c := Carve(b, need); c != [] && UsedBytes(c) == c[0].size && !c[0].free
  {
    var c := Carve(b, need);
    if |c| == 2 {
      assert c[1..] == [c[1]] && [c[1]][1..] == [];
      assert UsedBytes([c[1]]) == 0;
    } else {
      assert c[1..] == [];
    }
  }

  /** A granted block is counted as used, with the bytes it holds. */
  lemma {:induction false} AllocUses(at: nat, bs: seq<Block>, need: nat)
    requires AllocAddr(at, bs, need) != 0
    ensures AllocAddr(at, bs, need) in Live(at, Alloc(bs, need))
    ensures UsedBytes(Alloc(bs, need)) == UsedBytes(bs) + Live(at, Alloc(bs, need))[AllocAddr(at, bs, need)]
    decreases |bs|
  {
    hide Carve;
    AllocLive(at, bs, need);
    HeadNotBelow(at, bs);
    if Fits(bs[0], need) {
      var c := Carve(bs[0], need);
      CarveUses(bs[0], need);
      UsedAppend(c, bs[1..]);
      assert (c + bs[1..])[0] == c[0];
    } else {
      var next, r := at + HEADER + bs[0].size, Alloc(bs[1..], need);
      AllocUses(next, bs[1..], need);
      AllocSpan(next, bs[1..], need);
      assert ([bs[0]] + r)[1..] == r;
    }
  }

  lemma {:induction false} MarkUses(at: nat, bs: seq<Block>, p: nat)
    requires p in Live(at, bs)
    ensures UsedBytes(MarkFree(at, bs, p)) == UsedBytes(bs) - Live(at, bs)[p]
    decreases |bs|
  {
    HeadNotBelow(at, bs);
    if at + HEADER != p {
      var next := at + HEADER + bs[0].size;
      MarkUses(next, bs[1..], p);
      assert ([bs[0]] + MarkFree(next, bs[1..], p))[1..] == MarkFree(next, bs[1..], p);
    }
  }

  lemma {:induction false} MergeUses(bs: seq<Block>)
    ensures UsedBytes(Coalesce(bs)) == UsedBytes(bs)
    decreases |bs|
  {
    if |bs| >= 2 {
      if bs[0].free && bs[1].free {
        var m := [Block(bs[0].size + HEADER + bs[1].size, true)] + bs[2..];
        MergeUses(m);
        assert m[1..] == bs[2..] && bs[1..][1..] == bs[2..];
      } else {
        MergeUses(bs[1..]);
        assert ([bs[0]] + Coalesce(bs[1..]))[1..] == Coalesce(bs[1..]);
      }
    }
  }

  /** What the used bytes count: nothing at boot, then each block that is granted, until it is released. */
  lemma UsedBytesMeaning(bs: seq<Block>)
    requires WellFormed(bs)
    ensures UsedBytes(INITIAL) == 0
    ensures forall need: nat :: MIN_SPLIT <= need && AllocAddr(HEAP_START, bs, need) != 0 ==>
              var after, p := Alloc(bs, need), AllocAddr(HEAP_START, bs, need);
              p in Live(HEAP_START, after) && UsedBytes(after) == UsedBytes(bs) + Live(HEAP_START, after)[p]
    ensures forall p :: p in Live(HEAP_START, bs) ==>
              UsedBytes(Free(bs, p)) == UsedBytes(bs) - Live(HEAP_START, bs)[p]
  {
    hide Carve, Live, WellFormed, MarkFree, Coalesce;
    forall need: nat | MIN_SPLIT <= need && AllocAddr(HEAP_START, bs, need) != 0
      ensures var after, p := Alloc(bs, need), AllocAddr(HEAP_START, bs, need);
              p in Live(HEAP_START, after) && UsedBytes(after) == UsedBytes(bs) + Live(HEAP_START, after)[p]
    {
      AllocUses(HEAP_START, bs, need);
    }
    forall p | p in Live(HEAP_START, bs) ensures UsedBytes(Free(bs, p)) == UsedBytes(bs) - Live(HEAP_START, bs)[p] {
      MarkUses(HEAP_START, bs, p);
      MergeUses(MarkFree(HEAP_START, bs, p));
    }
  }

  // ---------------------------------------------------------------- the heap in memory

  /** The blocks `bs` start at `at`, each header pointing to the next block and the last one to `last`. */
  predicate Chain(mem: map<nat, Header>, at: nat, bs: seq<Block>, last: nat)
    decreases |bs|
  {
    bs == [] ||
    (at in mem &&
     mem[at] == Header(bs[0].size, if |bs| == 1 then last else at + HEADER + bs[0].size, bs[0].free) &&
     Chain(mem, at + HEADER + bs[0].size, bs[1..], last))
  }

  lemma {:induction false} ChainAppend(mem: map<nat, Header>, at: nat, a: seq<Block>, b: seq<Block>, last: nat)
    ensures Chain(mem, at, a + b, last) <==>
            Chain(mem, at, a, if b == [] then last else at + Span(a)) && Chain(mem, at + Span(a), b, last)
    decreases |a|
  {
    if a == [] {
      assert a + b == b;
    } else {
      assert (a + b)[1..] == a[1..] + b;
      ChainAppend(mem, at + HEADER + a[0].size, a[1..], b, last);
    }
  }

  lemma ChainFrame(mem: map<nat, Header>, mem': map<nat, Header>, at: nat, bs: seq<Block>, last: nat)
    requires Chain(mem, at, bs, last)
    requires forall x :: at <= x < at + Span(bs) && x in mem ==> x in mem' && mem'[x] == mem[x]
    ensures Chain(mem', at, bs, last)
    decreases |bs|
  {
  }

  /** A cursor into the heap: `block` points at the first block of `rest`, or is null at the end. */
  predicate Cursor(mem: map<nat, Header>, bs: seq<Block>, pre: seq<Block>, rest: seq<Block>, block: nat) {
    && bs == pre + rest
    && block == (if rest == [] then 0 else HEAP_START + Span(pre))
    && Chain(mem, HEAP_START, pre, block)
    && Chain(mem, HEAP_START + Span(pre), rest, 0)
  }

  lemma CursorStart(mem: map<nat, Header>, bs: seq<Block>)
    requires bs != [] && Chain(mem, HEAP_START, bs, 0)
    ensures Cursor(mem, bs, [], bs, HEAP_START)
  {
    assert [] + bs == bs;
  }

  lemma CursorAdvance(mem: map<nat, Header>, bs: seq<Block>, pre: seq<Block>, rest: seq<Block>, block: nat)
    requires Cursor(mem, bs, pre, rest, block) && rest != []
    ensures block in mem && mem[block].size == rest[0].size && mem[block].free == rest[0].free
    ensures Cursor(mem, bs, pre + [rest[0]], rest[1..], mem[block].next)
  {
    var next := mem[block].next;
    assert rest[..1] == [rest[0]] && pre + rest == (pre + [rest[0]]) + rest[1..];
    assert [rest[0]][1..] == [];
    SpanAppend(pre, [rest[0]]);
    ChainAppend(mem, HEAP_START, pre, [rest[0]], next);
  }

  lemma OneSpan(b: Block)
    ensures Span([b]) == HEADER + b.size
  {
    assert [b][1..] == [];
  }

  lemma AllocSkips(pre: seq<Block>, rest: seq<Block>, need: nat)
    requires rest != [] && !Fits(rest[0], need)
    ensures pre + Alloc(rest, need) == (pre + [rest[0]]) + Alloc(rest[1..], need)
    ensures AllocAddr(HEAP_START + Span(pre), rest, need) ==
            AllocAddr(HEAP_START + Span(pre + [rest[0]]), rest[1..], need)
  {
    hide Fits, Carve, Span;
    SpanAppend(pre, [rest[0]]);
    OneSpan(rest[0]);
    assert pre + ([rest[0]] + Alloc(rest[1..], need)) == (pre + [rest[0]]) + Alloc(rest[1..], need);
  }

  /** One merge step of the coalescing loop, seen in memory and in the abstract heap. */
  lemma CursorMerge(mem: map<nat, Header>, bs: seq<Block>, pre: seq<Block>, rest: seq<Block>, block: nat)
    returns (mem': map<nat, Header>, rest': seq<Block>)
    requires Cursor(mem, bs, pre, rest, block) && |rest| > 1 && rest[0].free && rest[1].free
    ensures block in mem && mem[block].next in mem
    ensures var n := mem[mem[block].next];
            mem' == mem[block := Header(mem[block].size + HEADER + n.size, n.next, true)]
    ensures rest' == [Block(rest[0].size + HEADER + rest[1].size, true)] + rest[2..]
    ensures Cursor(mem', pre + rest', pre, rest', block)
  {
    assert rest[1..][0] == rest[1] && rest[1..][1..] == rest[2..];
    assert Chain(mem, block + HEADER + rest[0].size, rest[1..], 0);
    var n := mem[mem[block].next];
    mem' := mem[block := Header(mem[block].size + HEADER + n.size, n.next, true)];
    rest' := [Block(rest[0].size + HEADER + rest[1].size, true)] + rest[2..];
    assert rest'[1..] == rest[2..];
    ChainFrame(mem, mem', HEAP_START, pre, block);
    ChainFrame(mem, mem', block + HEADER + rest'[0].size, rest[2..], 0);
  }

  /** The headers of a carved block in front of a chain. */
  lemma CarvedChain(mem: map<nat, Header>, at: nat, b: Block, need: nat, tail: seq<Block>)
    requires Fits(b, need) && Chain(mem, at + HEADER + b.size, tail, 0) && at in mem
    requires var next := if tail == [] then 0 else at + HEADER + b.size;
             if need + HEADER + MIN_SPLIT <= b.size then
               var split := at + HEADER + need;
               split in mem && mem[at] == Header(need, split, false) && mem[split] == Header(b.size - need - HEADER, next, true)
             else mem[at] == Header(b.size, next, false)
    ensures Chain(mem, at, Carve(b, need) + tail, 0)
  {
    var carved := Carve(b, need);
    if |carved| == 2 {
      assert (carved + tail)[1..] == [carved[1]] + tail && ([carved[1]] + tail)[1..] == tail;
    } else {
      assert (carved + tail)[1..] == tail;
    }
  }

  /** Claiming a block in memory is `Alloc` on the abstract heap. */
  lemma CursorTake(mem: map<nat, Header>, bs: seq<Block>, pre: seq<Block>, rest: seq<Block>, block: nat,
                   need: nat, mem': map<nat, Header>)
    requires Cursor(mem, bs, pre, rest, block) && rest != [] && Fits(rest[0], need)
    requires block in mem
    requires var h := mem[block];
             if need + HEADER + MIN_SPLIT <= h.size then
               var split := block + HEADER + need;
               mem' == mem[split := Header(h.size - need - HEADER, h.next, true)]
                          [block := Header(need, split, false)]
             else mem' == mem[block := h.(free := false)]
    ensures Chain(mem', HEAP_START, pre + Alloc(rest, need), 0)
  {
    var carved, tail := Carve(rest[0], need), rest[1..];
    ChainFrame(mem, mem', HEAP_START, pre, block);
    ChainFrame(mem, mem', block + HEADER + rest[0].size, tail, 0);
    CarvedChain(mem', block, rest[0], need, tail);
    ChainAppend(mem', HEAP_START, pre, carved + tail, 0);
  }

  class KernelHeap {
    var mem: map<nat, Header>
    var head: nat
    var ready: bool
    ghost var blocks: seq<Block>  // the block list
    ghost var live: map<nat, nat>  // payload address and size of the blocks in use

    ghost predicate Valid()
      reads this
    {
      && ready && head == HEAP_START
      && WellFormed(blocks) && live == Live(HEAP_START, blocks)
      && Chain(mem, HEAP_START, blocks, 0)
    }

    /** heap_init */
    constructor ()
      ensures Valid() && blocks == INITIAL && live == map[]
    {
      head := HEAP_START;
      mem := map[HEAP_START := Header(HEAP_SIZE - HEADER, 0, true)];
      ready := true;
      blocks := INITIAL;
      live := map[];
    }

    /** heap_coalesce */
    method CoalesceAll()
      requires head == HEAP_START && blocks != [] && Chain(mem, HEAP_START, blocks, 0)
      modifies this`mem, this`blocks
      ensures blocks == Coalesce(old(blocks)) && Chain(mem, HEAP_START, blocks, 0)
    {
      var block: nat := head;
      ghost var pre: seq<Block>, rest := [], blocks;
      CursorStart(mem, blocks);
      assert Coalesce(blocks) == [] + Coalesce(rest);
      while block != 0 && mem[block].next != 0
        invariant rest != [] && Cursor(mem, blocks, pre, rest, block)
        invariant Coalesce(old(blocks)) == pre + Coalesce(rest)
        decreases |rest|
      {
        CursorAdvance(mem, blocks, pre, rest, block);
        var next := mem[block].next;
        var blockEnd := block + HEADER + mem[block].size;
        if mem[block].free && mem[next].free && blockEnd == next {
          ghost var mem', rest' := CursorMerge(mem, blocks, pre, rest, block);
          mem := mem[block := mem[block].(size := mem[block].size + HEADER + mem[next].size)];
          mem := mem[block := mem[block].(next := mem[next].next)];
          assert mem == mem';
          rest, blocks := rest', pre + rest';
        } else {
          assert pre + ([rest[0]] + Coalesce(rest[1..])) == (pre + [rest[0]]) + Coalesce(rest[1..]);
          pre, rest := pre + [rest[0]], rest[1..];
          block := next;
        }
      }
      assert Coalesce(rest) == rest;
      ChainAppend(mem, HEAP_START, pre, rest, 0);
    }

    /** kmalloc: the block granted and the whole heap afterwards are those of first fit. */
    method Kmalloc(size: nat) returns (p: nat)
      requires Valid() && size < WORD
      modifies this`mem, this`blocks, this`live
      ensures Valid()
      ensures blocks == Step(old(blocks), Request(size))
      ensures p == if ValidRequest(size) then AllocAddr(HEAP_START, old(blocks), Align8(size)) else 0
      ensures p != 0 ==> Grants(old(live), live, p, Align8(size))
      ensures p == 0 ==> blocks == old(blocks)
    {
      if !ready || size == 0 { return 0; }
      Align8Meaning(size);
      var need := Align8(size);
      if need == 0 || need > HEAP_SIZE { return 0; }
      AllocGrants(blocks, need);
      ghost var pre, rest;
      var block;
      block, pre, rest := FindFit(need);
      if block == 0 { return 0; }
      Claim(block, need, pre, rest);
      live := Live(HEAP_START, blocks);
      return block + HEADER;
    }

    /** kmalloc's search loop. */
    method FindFit(need: nat) returns (block: nat, ghost pre: seq<Block>, ghost rest: seq<Block>)
      requires Valid()
      ensures Cursor(mem, blocks, pre, rest, block) && (block != 0 ==> Fits(rest[0], need))
      ensures Alloc(blocks, need) == pre + Alloc(rest, need)
      ensures AllocAddr(HEAP_START, blocks, need) == if block == 0 then 0 else block + HEADER
    {
      block := head;
      pre, rest := [], blocks;
      CursorStart(mem, blocks);
      assert Alloc(blocks, need) == [] + Alloc(rest, need);
      while block != 0
        invariant Cursor(mem, blocks, pre, rest, block)
        invariant Alloc(blocks, need) == pre + Alloc(rest, need)
        invariant AllocAddr(HEAP_START, blocks, need) == AllocAddr(HEAP_START + Span(pre), rest, need)
        decreases |rest|
      {
        CursorAdvance(mem, blocks, pre, rest, block);
        if mem[block].free && mem[block].size >= need { return; }
        AllocSkips(pre, rest, need);
        block := mem[block].next;
        pre, rest := pre + [rest[0]], rest[1..];
      }
    }

    /** What kmalloc does with the block found: split off the remainder when it can stand alone, then claim the block. */
    method Claim(block: nat, need: nat, ghost pre: seq<Block>, ghost rest: seq<Block>)
      requires Cursor(mem, blocks, pre, rest, block) && rest != [] && Fits(rest[0], need)
      modifies this`mem, this`blocks
      ensures blocks == pre + Alloc(rest, need) && Chain(mem, HEAP_START, blocks, 0)
    {
      CursorAdvance(mem, blocks, pre, rest, block);
      if mem[block].size >= need + HEADER + MIN_SPLIT {
        var split := block + HEADER + need;
        mem := mem[split := Header(mem[block].size - need - HEADER, mem[block].next, true)];
        mem := mem[block := mem[block].(next := split)];
        mem := mem[block := mem[block].(size := need)];
      }
      mem := mem[block := mem[block].(free := false)];
      CursorTake(old(mem), blocks, pre, rest, block, need, mem);
      blocks := pre + Alloc(rest, need);
    }

    /** kfree of a live block, of null, or of an address outside the heap payload range. */
    method Kfree(p: nat)
      requires Valid()
      requires p == 0 || p < HEAP_START + HEADER || HEAP_START + HEAP_SIZE <= p || p in live
      modifies this`mem, this`blocks, this`live
      ensures Valid()
      ensures blocks == if p in old(live) then Free(old(blocks), p) else old(blocks)
      ensures live == old(live) - {p}
    {
      if p in live { LiveBounds(HEAP_START, blocks, p); } else { assert live - {p} == live; }
      if !ready || p == 0 { return; }
      if p < HEAP_START + HEADER || p >= HEAP_START + HEAP_SIZE { return; }
      var block := p - HEADER;
      FreeWellFormed(blocks, p);
      MarkInChain(mem, HEAP_START, blocks, p);
      mem := mem[block := mem[block].(free := true)];
      blocks := MarkFree(HEAP_START, blocks, p);
      CoalesceAll();
      live := live - {p};
    }

    /** kheap_used_bytes */
    method UsedBytesCount() returns (used: nat)
      requires Valid()
      ensures used == UsedBytes(blocks)
    {
      used := 0;
      var block: nat := head;
      ghost var pre: seq<Block>, rest := [], blocks;
      CursorStart(mem, blocks);
      while block != 0
        invariant Cursor(mem, blocks, pre, rest, block)
        invariant used + UsedBytes(rest) == UsedBytes(blocks)
        decreases |rest|
      {
        CursorAdvance(mem, blocks, pre, rest, block);
        if !mem[block].free { used := used + mem[block].size; }
        block := mem[block].next;
        pre, rest := pre + [rest[0]], rest[1..];
      }
    }

    /** kheap_free_bytes */
    method FreeBytesCount() returns (bytes: nat)
      requires Valid()
      ensures bytes == FreeBytes(blocks)
      ensures bytes + UsedBytes(blocks) + HEADER * |blocks| == HEAP_SIZE
    {
      bytes := 0;
      var block: nat := head;
      ghost var pre: seq<Block>, rest := [], blocks;
      CursorStart(mem, blocks);
      while block != 0
        invariant Cursor(mem, blocks, pre, rest, block)
        invariant bytes + FreeBytes(rest) == FreeBytes(blocks)
        decreases |rest|
      {
        CursorAdvance(mem, blocks, pre, rest, block);
        if mem[block].free { bytes := bytes + mem[block].size; }
        block := mem[block].next;
        pre, rest := pre + [rest[0]], rest[1..];
      }
      BytesAccounted(blocks);
    }
  }

  lemma {:induction false} MarkInChain(mem: map<nat, Header>, at: nat, bs: seq<Block>, p: nat)
    requires p in Live(at, bs) && Chain(mem, at, bs, 0)
    ensures at <= p - HEADER && p - HEADER in mem
    ensures Chain(mem[p - HEADER := mem[p - HEADER].(free := true)], at, MarkFree(at, bs, p), 0)
    ensures |MarkFree(at, bs, p)| == |bs|
    decreases |bs|
  {
    HeadNotBelow(at, bs);
    var next := at + HEADER + bs[0].size;
    if p == at + HEADER {
      var mem' := mem[at := mem[at].(free := true)];
      ChainFrame(mem, mem', next, bs[1..], 0);
    } else {
      LiveBounds(next, bs[1..], p);
      MarkInChain(mem, next, bs[1..], p);
      var r := MarkFree(next, bs[1..], p);
      assert ([bs[0]] + r)[1..] == r;
    }
  }
}
