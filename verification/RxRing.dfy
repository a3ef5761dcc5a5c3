/** The NE2000 receive ring as src/drivers/network.c drains it: pages 0x46 to 0x7F of the card's memory hold packets,
    each starting on a page with a four-byte header (status, next page, length) and running on past the end of the ring
    to its start.  `Holds` says which queue of frames the ring holds. */
module RxRing {
  import opened Bytes

  const START: nat := 0x46
  const STOP: nat := 0x80
  const PAGES: nat := STOP - START
  const MEM: nat := 256 * STOP
  const RX_CAP: nat := 1600
  // the longest frame whose packet leaves a page of the ring free
  const MAX_FRAME: nat := 256 * (PAGES - 1) - 4

  predicate InRing(page: nat) {
    START <= page < STOP
  }

  /** The page `k` pages further round the ring. */
  function Advance(page: nat, k: nat): (p: nat)
    requires InRing(page) && k < PAGES
    ensures InRing(p)
  {
    if page + k >= STOP then page + k - PAGES else page + k
  }

  function PagesFor(frame: seq<byte>): (n: nat)
    ensures 256 * (n - 1) < |frame| + 4 <= 256 * n
  {
    (|frame| + 4 + 255) / 256
  }

  /** The address of byte `j` behind the start of a page, counted round the ring. */
  function Addr(page: nat, j: nat): (a: nat)
    requires InRing(page) && j < 256 * PAGES
    ensures 256 * START <= a < MEM
  {
    if 256 * page + j >= MEM then 256 * page + j - 256 * PAGES else 256 * page + j
  }

  function TotalPages(frames: seq<seq<byte>>): nat {
    if frames == [] then 0 else PagesFor(frames[0]) + TotalPages(frames[1..])
  }

  /** The packet at `page` carries `frame` and names the page behind it. */
  predicate PacketAt(mem: seq<byte>, page: nat, frame: seq<byte>)
    requires |mem| == MEM && InRing(page) && |frame| <= MAX_FRAME
  {
    && mem[256 * page] % 2 == 1
    && mem[256 * page + 1] == Advance(page, PagesFor(frame))
    && mem[256 * page + 2] + 256 * mem[256 * page + 3] as int == |frame| + 4
    && forall j :: 0 <= j < |frame| ==> mem[Addr(page, 4 + j)] == frame[j]
  }

  /** The ring from `page` up to (not including) `curr` holds exactly this queue of frames. */
  predicate Holds(mem: seq<byte>, page: nat, frames: seq<seq<byte>>, curr: nat)
    requires |mem| == MEM
    decreases |frames|
  {
    if frames == [] then page == curr && InRing(page)
    else
      && InRing(page) && |frames[0]| <= MAX_FRAME && PacketAt(mem, page, frames[0])
      && TotalPages(frames) < PAGES
      && Holds(mem, Advance(page, PagesFor(frames[0])), frames[1..], curr)
  }

  /** What the driver hands up of a frame: as much as its buffer holds. */
  function Cut(frame: seq<byte>): seq<byte> {
    if |frame| > RX_CAP then frame[..RX_CAP] else frame
  }

  function CutAll(frames: seq<seq<byte>>): (r: seq<seq<byte>>)
    ensures |r| == |frames| && forall i :: 0 <= i < |r| ==> r[i] == Cut(frames[i])
  {
    seq(|frames|, i requires 0 <= i < |frames| => Cut(frames[i]))
  }

  lemma CutNothing(delivered: seq<seq<byte>>)
    ensures CutAll([]) == [] && delivered + [] == [] + delivered == delivered
  {
  }

  lemma CutFirst(delivered: seq<seq<byte>>, rest: seq<seq<byte>>)
    requires rest != []
    ensures delivered + CutAll(rest) == (delivered + [Cut(rest[0])]) + CutAll(rest[1..])
  {
    assert CutAll(rest) == [Cut(rest[0])] + CutAll(rest[1..]);
  }

  lemma AdvanceTwice(page: nat, a: nat, b: nat)
    requires InRing(page) && a + b < PAGES
    ensures Advance(Advance(page, a), b) == Advance(page, a + b)
  {
  }

  /** A queue that does not fill the ring ends where its page count says, so a nonempty ring never looks empty. */
  lemma {:induction false} HoldsEnd(mem: seq<byte>, page: nat, frames: seq<seq<byte>>, curr: nat)
    requires |mem| == MEM && Holds(mem, page, frames, curr)
    ensures InRing(page) && InRing(curr) && TotalPages(frames) < PAGES && curr == Advance(page, TotalPages(frames))
    ensures frames != [] ==> page != curr
    decreases |frames|
  {
    if frames != [] {
      HoldsEnd(mem, Advance(page, PagesFor(frames[0])), frames[1..], curr);
      AdvanceTwice(page, PagesFor(frames[0]), TotalPages(frames[1..]));
    }
  }

  class Card {
    const mem: array<byte>
    const rx: array<byte>
    var bnry: nat
    var curr: nat

    ghost predicate Valid()
      reads this
    {
      mem.Length == MEM && rx.Length == RX_CAP && mem != rx && InRing(bnry) && InRing(curr)
    }

    /** The page behind the boundary register: the first one not yet read. */
    function FirstPage(): (p: nat)
      requires InRing(bnry)
      reads this`bnry
      ensures InRing(p)
    {
      Advance(bnry, 1)
    }

    /** ne_dma_read, always in time. */
    method DmaRead(addr: nat, at: nat, len: nat)
      requires Valid() && addr + len <= MEM && at + len <= RX_CAP
      modifies rx
      ensures rx[at..at + len] == mem[addr..addr + len] && rx[..at] == old(rx[..at])
    {
      forall i | 0 <= i < len { rx[at + i] := mem[addr + i]; }
    }

    /** The copy of one packet body into the receive buffer, in two pieces when it wraps. */
    method Fetch(page: nat, len: nat)
      requires Valid() && InRing(page) && len <= RX_CAP
      modifies rx
      ensures forall j :: 0 <= j < len ==> rx[..len][j] == mem[Addr(page, 4 + j)]
    {
      var startAddr := 256 * page + 4;
      if startAddr + len <= MEM {
        DmaRead(startAddr, 0, len);
        assert rx[..len] == rx[0..0 + len];
      } else {
        var first := MEM - startAddr;
        DmaRead(startAddr, 0, first);
        ghost var head := rx[0..0 + first];
        DmaRead(256 * START, first, len - first);
        assert rx[..len] == head + rx[first..first + (len - first)];
      }
    }

    /** One round of ne_receive_packets: the packet at the first unread page goes up and the boundary moves past it. */
    method TakeOne(page: nat, ghost frame: seq<byte>) returns (delivered: seq<seq<byte>>)
      requires Valid() && page == FirstPage() && |frame| <= MAX_FRAME && PagesFor(frame) < PAGES
      requires PacketAt(mem[..], page, frame)
      modifies this`bnry, rx
      ensures Valid() && delivered == [Cut(frame)] && FirstPage() == Advance(page, PagesFor(frame))
    {
      var status, nextPage := mem[256 * page] as int, mem[256 * page + 1] as int;
      var count: nat := mem[256 * page + 2] as int + 256 * mem[256 * page + 3] as int;
      assert nextPage == Advance(page, PagesFor(frame)) && count == |frame| + 4;
      if nextPage < START || nextPage >= STOP { nextPage := curr; }
      if nextPage == page {
        nextPage := page + 1;
        if nextPage >= STOP { nextPage := START; }
      }
      delivered := [];
      if status % 2 == 1 && count >= 4 {
        var frameLen := count - 4;
        if frameLen > RX_CAP { frameLen := RX_CAP; }
        Fetch(page, frameLen);
        assert rx[..frameLen] == Cut(frame);
        delivered := [rx[..frameLen]];
      }
      var newBnry := nextPage - 1;
      if newBnry < START { newBnry := STOP - 1; }
      bnry := newBnry;
    }

    /** ne_receive_packets: hands up exactly the queued frames, oldest first, each cut to the receive buffer,
        and leaves the ring empty with the boundary one page behind the card's write page. */
    method ReceivePackets(ghost frames: seq<seq<byte>>) returns (delivered: seq<seq<byte>>)
      requires Valid() && Holds(mem[..], FirstPage(), frames, curr)
      modifies this`bnry, rx
      ensures Valid() && delivered == CutAll(frames)
      ensures FirstPage() == curr
    {
      hide PacketAt, TotalPages, Cut, CutAll;
      delivered := [];
      CutNothing(CutAll(frames));
      ghost var rest := frames;
      while true
        invariant Valid() && delivered + CutAll(rest) == CutAll(frames) && Holds(mem[..], FirstPage(), rest, curr)
        decreases |rest|
      {
        var page := bnry + 1;
        if page >= STOP { page := START; }
        HoldsEnd(mem[..], page, rest, curr);
        CutNothing(delivered);
        if page == curr { break; }
        FirstFits(rest);
        var one := TakeOne(page, rest[0]);
        CutFirst(delivered, rest);
        delivered := delivered + one;
        rest := rest[1..];
      }
    }
  }

  lemma FirstFits(frames: seq<seq<byte>>)
    requires frames != [] && TotalPages(frames) < PAGES
    ensures PagesFor(frames[0]) < PAGES && frames == [frames[0]] + frames[1..]
  {
  }

  // ---------------------------------------------------------------- the card's side

  /** The card stores a frame at `curr`: header, then the bytes, round the ring. */
  function Deposited(mem: seq<byte>, curr: nat, frame: seq<byte>): (r: seq<byte>)
    requires |mem| == MEM && InRing(curr) && |frame| <= MAX_FRAME
    ensures |r| == MEM
  {
    seq(MEM, a requires 0 <= a < MEM => DepositedAt(mem, curr, frame, a))
  }

  function DepositedAt(mem: seq<byte>, curr: nat, frame: seq<byte>, a: nat): byte
    requires |mem| == MEM && InRing(curr) && |frame| <= MAX_FRAME && a < MEM
  {
    var j := if a >= 256 * curr then a - 256 * curr else a - 256 * curr + 256 * PAGES;
    if a < 256 * START || j >= 4 + |frame| then mem[a]
    else if j == 0 then 1
    else if j == 1 then Advance(curr, PagesFor(frame))
    else if j == 2 then (|frame| + 4) % 256
    else if j == 3 then (|frame| + 4) / 256
    else frame[j - 4]
  }

  lemma DepositedPacket(mem: seq<byte>, curr: nat, frame: seq<byte>)
    requires |mem| == MEM && InRing(curr) && |frame| <= MAX_FRAME
    ensures PacketAt(Deposited(mem, curr, frame), curr, frame)
  {
  }

  /** A packet is not disturbed by a deposit behind it that leaves the ring at most full. */
  lemma PacketSurvives(mem: seq<byte>, page: nat, frame: seq<byte>, gap: nat, curr: nat, next: seq<byte>)
    requires |mem| == MEM && InRing(page) && |frame| <= MAX_FRAME && |next| <= MAX_FRAME
    requires PacketAt(mem, page, frame)
    requires gap >= PagesFor(frame) && gap + PagesFor(next) < PAGES && curr == Advance(page, gap)
    ensures PacketAt(Deposited(mem, curr, next), page, frame)
  {
    var mem' := Deposited(mem, curr, next);
    assert forall j :: 0 <= j < 4 + |frame| ==> mem'[Addr(page, j)] == mem[Addr(page, j)];
    assert Addr(page, 0) == 256 * page && Addr(page, 1) == 256 * page + 1;
    assert Addr(page, 2) == 256 * page + 2 && Addr(page, 3) == 256 * page + 3;
  }

  /** Together with `ReceivePackets` this makes the ring a FIFO queue: a deposit appends to what the driver will read. */
  lemma {:induction false} DepositAppends(mem: seq<byte>, page: nat, frames: seq<seq<byte>>, curr: nat, frame: seq<byte>)
    requires |mem| == MEM && Holds(mem, page, frames, curr) && |frame| <= MAX_FRAME
    requires TotalPages(frames) + PagesFor(frame) < PAGES
    ensures InRing(curr)
    ensures Holds(Deposited(mem, curr, frame), page, frames + [frame], Advance(curr, PagesFor(frame)))
    decreases |frames|
  {
    HoldsEnd(mem, page, frames, curr);
    TotalAppend(frames, frame);
    if frames == [] {
      DepositedPacket(mem, curr, frame);
      assert [] + [frame] == [frame] && [frame][1..] == [];
    } else {
      PacketSurvives(mem, page, frames[0], TotalPages(frames), curr, frame);
      DepositAppends(mem, Advance(page, PagesFor(frames[0])), frames[1..], curr, frame);
      assert (frames + [frame])[1..] == frames[1..] + [frame];
    }
  }

  lemma {:induction false} TotalAppend(frames: seq<seq<byte>>, frame: seq<byte>)
    ensures TotalPages(frames + [frame]) == TotalPages(frames) + PagesFor(frame)
    decreases |frames|
  {
    if frames == [] {
      assert [] + [frame] == [frame] && [frame][1..] == [];
    } else {
      assert (frames + [frame])[1..] == frames[1..] + [frame];
      TotalAppend(frames[1..], frame);
    }
  }
}
