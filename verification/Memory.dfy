/** memcpy and memmove of src/lib/string.c on a flat memory.  memcpy copies by bytes until both pointers are
    word aligned, then by 32-bit words; memmove forwards to it whenever the destination is below the source. */
module Memory {
  import opened Bytes

  /** The memory after all `n` bytes have been read first and then stored: the effect memmove promises. */
  function Moved(mem: seq<byte>, dst: nat, src: nat, n: nat): (r: seq<byte>)
    requires dst + n <= |mem| && src + n <= |mem|
    ensures |r| == |mem|
  {
    mem[..dst] + mem[src..src + n] + mem[dst + n..]
  }

  /** The first `k` bytes have arrived and nothing else has changed. */
  predicate Front(mem: seq<byte>, was: seq<byte>, dst: nat, src: nat, k: nat) {
    && |mem| == |was| && dst + k <= |was| && src + k <= |was|
    && (forall i :: dst <= i < dst + k ==> mem[i] == was[src + (i - dst)])
    && (forall i :: 0 <= i < |was| && !(dst <= i < dst + k) ==> mem[i] == was[i])
  }

  lemma FrontDone(mem: seq<byte>, was: seq<byte>, dst: nat, src: nat, n: nat)
    requires Front(mem, was, dst, src, n)
    ensures mem == Moved(was, dst, src, n)
  {
  }

  lemma FrontCompose(mem': seq<byte>, mem: seq<byte>, was: seq<byte>, dst: nat, src: nat, k: nat, j: nat)
    requires Front(mem, was, dst, src, k) && Front(mem', mem, dst + k, src + k, j)
    requires dst <= src || src + k + j <= dst
    ensures Front(mem', was, dst, src, k + j)
  {
  }

  /** One byte load and store. */
  method CopyByte(mem: array<byte>, d: nat, s: nat)
    requires d < mem.Length && s < mem.Length
    modifies mem
    ensures Front(mem[..], old(mem[..]), d, s, 1)
  {
    mem[d] := mem[s];
  }

  /** One 32-bit load, then one 32-bit store. */
  method CopyWord(mem: array<byte>, d: nat, s: nat)
    requires d + 4 <= mem.Length && s + 4 <= mem.Length
    modifies mem
    ensures Front(mem[..], old(mem[..]), d, s, 4)
  {
    mem[d], mem[d + 1], mem[d + 2], mem[d + 3] := mem[s], mem[s + 1], mem[s + 2], mem[s + 3];
  }

  /** memcpy: a simultaneous copy as long as the destination does not start inside the source.  (C allows calls
      without any overlap only; memmove relies on more.) */
  method Memcpy(mem: array<byte>, dst: nat, src: nat, count: nat)
    requires dst + count <= mem.Length && src + count <= mem.Length
    requires dst <= src || src + count <= dst
    modifies mem
    ensures mem[..] == Moved(old(mem[..]), dst, src, count)
  {
    hide Moved, Front;
    ghost var was := mem[..];
    FrontStart(was, dst, src);
    var d, s, n: nat := dst, src, count;
    ghost var done := 0;
    if d == s || n == 0 {
      if d == s { FrontSame(was, dst, count); }
      FrontDone(mem[..], was, dst, src, count);
      return;
    }
    while n != 0 && (d % 4 != 0 || s % 4 != 0)
      invariant d == dst + done && s == src + done && done + n == count
      invariant Front(mem[..], was, dst, src, done)
    {
      ghost var before := mem[..];
      CopyByte(mem, d, s);
      FrontCompose(mem[..], before, was, dst, src, done, 1);
      d, s, n, done := d + 1, s + 1, n - 1, done + 1;
    }
    while n >= 4
      invariant d == dst + done && s == src + done && done + n == count
      invariant Front(mem[..], was, dst, src, done)
    {
      ghost var before := mem[..];
      CopyWord(mem, d, s);
      FrontCompose(mem[..], before, was, dst, src, done, 4);
      d, s, n, done := d + 4, s + 4, n - 4, done + 4;
    }
    while n != 0
      invariant d == dst + done && s == src + done && done + n == count
      invariant Front(mem[..], was, dst, src, done)
    {
      ghost var before := mem[..];
      CopyByte(mem, d, s);
      FrontCompose(mem[..], before, was, dst, src, done, 1);
      d, s, n, done := d + 1, s + 1, n - 1, done + 1;
    }
    FrontDone(mem[..], was, dst, src, count);
  }

  lemma FrontStart(was: seq<byte>, dst: nat, src: nat)
    requires dst <= |was| && src <= |was|
    ensures Front(was, was, dst, src, 0)
  {
  }

  lemma FrontSame(was: seq<byte>, at: nat, n: nat)
    requires at + n <= |was|
    ensures Front(was, was, at, at, n)
  {
  }

  lemma MovedMeaning(mem: seq<byte>, dst: nat, src: nat, n: nat)
    requires dst + n <= |mem| && src + n <= |mem|
    ensures forall i :: 0 <= i < |mem| ==>
              Moved(mem, dst, src, n)[i] == if dst <= i < dst + n then mem[src + (i - dst)] else mem[i]
  {
  }

  /** memmove: a simultaneous copy, whatever the overlap and the alignment: the destination holds the old source and
      every other byte is what it was. */
  method Memmove(mem: array<byte>, dst: nat, src: nat, count: nat)
    requires dst + count <= mem.Length && src + count <= mem.Length
    modifies mem
    ensures mem[..] == Moved(old(mem[..]), dst, src, count)
    ensures forall i :: 0 <= i < mem.Length ==>
              mem[..][i] == if dst <= i < dst + count then old(mem[..])[src + (i - dst)] else old(mem[..])[i]
  {
    MovedMeaning(mem[..], dst, src, count);
    if dst == src || count == 0 { return; }
    if dst < src || dst >= src + count {
      Memcpy(mem, dst, src, count);
      return;
    }
    ghost var was := mem[..];
    var d, s, n := dst + count, src + count, count;
    while n != 0
      invariant 0 <= n <= count && d == dst + n && s == src + n
      invariant forall i :: dst + n <= i < dst + count ==> mem[i] == was[src + (i - dst)]
      invariant forall i :: 0 <= i < mem.Length && !(dst + n <= i < dst + count) ==> mem[i] == was[i]
    {
      d, s, n := d - 1, s - 1, n - 1;
      mem[d] := mem[s];
    }
    FrontDone(mem[..], was, dst, src, count);
  }
}
