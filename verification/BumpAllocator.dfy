/**
 * The boot-time bump allocator of kernel/src/simple_alloc_unsafe.rs.
 */
module BumpAllocator {
  import opened Text

  const USIZE: nat := 0x1_0000_0000_0000_0000

  /** Layout guarantees a power of two. */
  predicate IsPowerOfTwo(a: nat) {
    a == 1 || (a > 1 && a % 2 == 0 && IsPowerOfTwo(a / 2))
  }

  function Capped(align: nat): nat {
    if align > 8 then 8 else align
  }

  lemma CappedPowers(align: nat)
    requires IsPowerOfTwo(align)
    ensures Capped(align) in {1, 2, 4, 8}
    ensures align > 8 ==> align % 16 == 0
  {
    if align > 8 {
      assert align % 2 == 0 && IsPowerOfTwo(align / 2);
      assert (align / 2) % 2 == 0 && IsPowerOfTwo(align / 2 / 2);
      assert (align / 2 / 2) % 2 == 0 && IsPowerOfTwo(align / 2 / 2 / 2);
      assert (align / 2 / 2 / 2) % 2 == 0;
    }
  }

  /** n rounded up to a multiple of a. */
  function AlignUp(n: nat, a: nat): (r: nat)
    requires a in {1, 2, 4, 8}
    ensures n <= r < n + a
    ensures r % a == 0
  {
    if a == 1 then n
    else if a == 2 then (n + 1) - (n + 1) % 2
    else if a == 4 then (n + 3) - (n + 3) % 4
    else (n + 7) - (n + 7) % 8
  }

  // ---------------------------------------------------------------- masking

  /** x & y, bit by bit. */
  function BitAnd(x: nat, y: nat): nat {
    if x == 0 || y == 0 then 0 else (x % 2) * (y % 2) + 2 * BitAnd(x / 2, y / 2)
  }

  /** !x on 64-bit words. */
  function BitNot(x: nat): nat
    requires x < USIZE
  {
    USIZE - 1 - x
  }

  function Pow2(k: nat): (r: nat)
    ensures r >= 1
  {
    if k == 0 then 1 else 2 * Pow2(k - 1)
  }

  /** Masking with k ones keeps a word of k bits. */
  lemma {:induction false} AndOnes(x: nat, k: nat)
    requires x < Pow2(k)
    ensures BitAnd(x, Pow2(k) - 1) == x
  {
    if k != 0 && x != 0 {
      AndOnes(x / 2, k - 1);
      assert (Pow2(k) - 1) / 2 == Pow2(k - 1) - 1;
      assert (Pow2(k) - 1) % 2 == 1;
    }
  }

  /** A mask whose lowest bit is clear drops that bit of the word. */
  lemma AndEven(x: nat, y: nat)
    ensures BitAnd(x, 2 * y) == 2 * BitAnd(x / 2, y)
  {
  }

  lemma Pow2By8(k: nat)
    ensures Pow2(k + 8) == 256 * Pow2(k)
  {
    assert Pow2(k + 2) == 4 * Pow2(k);
    assert Pow2(k + 4) == 4 * Pow2(k + 2);
    assert Pow2(k + 6) == 4 * Pow2(k + 4);
  }

  lemma Pow2By32(k: nat)
    ensures Pow2(k + 32) == 0x1_0000_0000 * Pow2(k)
  {
    hide Pow2;
    Pow2By8(k);
    Pow2By8(k + 8);
    Pow2By8(k + 16);
    Pow2By8(k + 24);
  }

  lemma WordBits(k: nat)
    requires k == 64
    ensures Pow2(k) == USIZE
    ensures 2 * Pow2(k - 1) == 4 * Pow2(k - 2) == 8 * Pow2(k - 3) == USIZE
  {
    Pow2By32(k - 64);
    Pow2By32(k - 32);
  }

  lemma AndTimes4(x: nat, y: nat)
    ensures BitAnd(x, 4 * y) == 4 * BitAnd(x / 4, y)
  {
    hide BitAnd;
    AndEven(x, 2 * y);
    AndEven(x / 2, y);
    assert x / 2 / 2 == x / 4;
  }

  lemma AndTimes8(x: nat, y: nat)
    ensures BitAnd(x, 8 * y) == 8 * BitAnd(x / 8, y)
  {
    hide BitAnd;
    AndTimes4(x, 2 * y);
    AndEven(x / 4, y);
    assert x / 4 / 2 == x / 8;
  }

  /** Masking off the low bits of a word rounds it down. */
  lemma MaskRoundsDown(m: nat, k: nat)
    requires m < USIZE && k == 64
    ensures BitAnd(m, USIZE - 1) == m
    ensures BitAnd(m, USIZE - 2) == 2 * (m / 2)
    ensures BitAnd(m, USIZE - 4) == 4 * (m / 4)
    ensures BitAnd(m, USIZE - 8) == 8 * (m / 8)
  {
    WordBits(k);
    hide Pow2, BitAnd;
    AndOnes(m, k);
    AndOnes(m / 2, k - 1);
    AndOnes(m / 4, k - 2);
    AndOnes(m / 8, k - 3);
    AndEven(m, Pow2(k - 1) - 1);
    AndTimes4(m, Pow2(k - 2) - 1);
    AndTimes8(m, Pow2(k - 3) - 1);
  }

  /** The address arithmetic of the source is rounding up, while it stays inside a word. */
  lemma MaskIsAlignUp(next: nat, a: nat)
    requires a in {1, 2, 4, 8} && next + (a - 1) < USIZE
    ensures BitAnd(next + (a - 1), BitNot(a - 1)) == AlignUp(next, a)
  {
    hide BitAnd;
    MaskRoundsDown(next + (a - 1), 64);
  }

  lemma SmallRemainder(n: nat, a: nat)
    requires n < a
    ensures n % a == n
  {
  }

  /** The alignment asked for is always met exactly when it is at most eight. */
  lemma AlignmentHonoured(align: nat)
    requires IsPowerOfTwo(align)
    ensures Capped(align) in {1, 2, 4, 8}
    ensures (forall n: nat :: AlignUp(n, Capped(align)) % align == 0) <==> align <= 8
  {
    CappedPowers(align);
    if align <= 8 {
      forall n: nat
        ensures AlignUp(n, Capped(align)) % align == 0
      {
      }
    } else {
      var r := AlignUp(8, Capped(align));
      assert r == 8;
      SmallRemainder(r, align);
    }
  }

  datatype Block = Block(addr: nat, size: nat)

  predicate Overlap(a: Block, b: Block) {
    a.addr < b.addr + b.size && b.addr < a.addr + a.size
  }

  class Allocator {
    /** The memory the kernel can address, by address. */
    const mem: array<Byte>
    var start: nat
    var size: nat
    var next: nat
    var allocations: nat
    ghost var blocks: seq<Block>

    /** Blocks handed out lie in order below next, inside the region. */
    ghost predicate Valid()
      reads this
    {
      && start + size + 8 <= USIZE && start + size <= mem.Length
      && start <= next <= start + size
      && allocations == |blocks|
      && (forall i :: 0 <= i < |blocks| ==> start <= blocks[i].addr && blocks[i].addr + blocks[i].size <= next)
      && (forall i, j :: 0 <= i < j < |blocks| ==> blocks[i].addr + blocks[i].size <= blocks[j].addr)
    }

    constructor (mem: array<Byte>)
      ensures this.mem == mem && start == 0 && blocks == [] && Valid()
    {
      this.mem := mem;
      start, size, next, allocations := 0, 0, 0, 0;
      blocks := [];
    }

    /** init, for a region whose end leaves room for the alignment slack */
    method Init(start: nat, size: nat)
      requires start + size + 8 <= USIZE && start + size <= mem.Length
      modifies this
      ensures Valid() && this.start == start && this.size == size && next == start && blocks == []
    {
      this.start, this.size, next, allocations := start, size, start, 0;
      blocks := [];
    }

    /** alloc; zero is the null pointer */
    method Alloc(layoutSize: nat, align: nat) returns (addr: nat)
      requires Valid() && IsPowerOfTwo(align)
      modifies this`next, this`allocations, this`blocks, mem
      ensures Valid()
      ensures Capped(align) in {1, 2, 4, 8}
      ensures addr != 0 <==>
                start != 0 && AlignUp(old(next), Capped(align)) + layoutSize <= start + size
      ensures addr == 0 ==> next == old(next) && blocks == old(blocks) && mem[..] == old(mem[..])
      ensures addr != 0 ==>
                && addr % Capped(align) == 0 && addr == AlignUp(old(next), Capped(align))
                && next == addr + layoutSize
                && blocks == old(blocks) + [Block(addr, layoutSize)]
                && (forall i :: addr <= i < addr + layoutSize ==> mem[i] == 0)
                && (forall i :: 0 <= i < mem.Length && !(addr <= i < addr + layoutSize) ==> mem[i] == old(mem[i]))
    {
      hide BitAnd, IsPowerOfTwo;
      CappedPowers(align);
      if start == 0 {
        return 0;
      }
      var mask := Capped(align) - 1;
      var aligned := BitAnd(next + mask, BitNot(mask));
      MaskIsAlignUp(next, Capped(align));
      if aligned + layoutSize >= USIZE {
        return 0;
      }
      var end := aligned + layoutSize;
      if end > start + size {
        return 0;
      }
      next := end;
      allocations := allocations + 1;
      blocks := blocks + [Block(aligned, layoutSize)];
      addr := aligned;
      var i := addr;
      while i < end
        invariant addr <= i <= end
        invariant forall k :: addr <= k < i ==> mem[k] == 0
        invariant forall k :: 0 <= k < mem.Length && !(addr <= k < i) ==> mem[k] == old(mem[k])
        modifies mem
      {
        mem[i] := 0;
        i := i + 1;
      }
    }

    /** stats */
    method Stats() returns (used: nat, free: nat, count: nat)
      requires Valid()
      ensures used + free == size && used == next - start && count == |blocks|
    {
      used := next - start;
      free := size - used;
      count := allocations;
    }
  }

  // ---------------------------------------------------------------- whole runs

  datatype Request = Request(size: nat, align: nat)

  datatype Region = Region(start: nat, size: nat)

  /** The aligned block fits above next; a region at address zero is not initialized. */
  predicate Fits(g: Region, next: nat, r: Request)
    requires IsPowerOfTwo(r.align)
  {
    CappedPowers(r.align);
    g.start != 0 && AlignUp(next, Capped(r.align)) + r.size <= g.start + g.size
  }

  predicate Aligned(requests: seq<Request>) {
    forall i :: 0 <= i < |requests| ==> IsPowerOfTwo(requests[i].align)
  }

  /** Where the blocks of the first n answers end. */
  function End(g: Region, requests: seq<Request>, addrs: seq<nat>, n: nat): nat
    requires n <= |requests| == |addrs|
  {
    if n == 0 then g.start
    else if addrs[n - 1] == 0 then End(g, requests, addrs, n - 1)
    else addrs[n - 1] + requests[n - 1].size
  }

  /**
   * The answers a bump allocator owes: a request is refused exactly when its block
   * does not fit above the blocks before it, and otherwise gets the lowest address
   * there that meets the alignment, up to eight.
   */
  ghost predicate Answers(g: Region, requests: seq<Request>, addrs: seq<nat>)
    requires Aligned(requests)
  {
    && |addrs| == |requests|
    && forall i :: 0 <= i < |requests| ==> AnswerOk(g, requests, addrs, i)
  }

  ghost predicate AnswerOk(g: Region, requests: seq<Request>, addrs: seq<nat>, i: nat)
    requires Aligned(requests) && |addrs| == |requests| && i < |requests|
  {
    var end := End(g, requests, addrs, i);
    var a := Capped(requests[i].align);
    && (addrs[i] == 0 <==> !Fits(g, end, requests[i]))
    && (addrs[i] != 0 ==> end <= addrs[i] < end + a && addrs[i] % a == 0)
  }

  /** The blocks of the requests that were granted, in order. */
  function Granted(requests: seq<Request>, addrs: seq<nat>): seq<Block>
    requires |requests| == |addrs|
  {
    if requests == [] then []
    else
      var n := |requests| - 1;
      var before := Granted(requests[..n], addrs[..n]);
      if addrs[n] == 0 then before else before + [Block(addrs[n], requests[n].size)]
  }

  lemma {:induction false} EndOfPrefix(g: Region, requests: seq<Request>, addrs: seq<nat>, k: nat, n: nat)
    requires n <= k <= |requests| && |requests| == |addrs|
    ensures End(g, requests[..k], addrs[..k], n) == End(g, requests, addrs, n)
  {
    if n != 0 {
      EndOfPrefix(g, requests, addrs, k, n - 1);
    }
  }

  /** One more right answer. */
  lemma AnswersAppend(g: Region, requests: seq<Request>, addrs: seq<nat>, n: nat, addr: nat)
    requires Aligned(requests) && n < |requests| && |addrs| == n
    requires Answers(g, requests[..n], addrs)
    requires AnswerOk(g, requests[..n + 1], addrs + [addr], n)
    ensures Answers(g, requests[..n + 1], addrs + [addr])
    ensures Granted(requests[..n + 1], addrs + [addr])
            == Granted(requests[..n], addrs) + (if addr == 0 then [] else [Block(addr, requests[n].size)])
    ensures End(g, requests[..n + 1], addrs + [addr], n + 1)
            == if addr == 0 then End(g, requests[..n], addrs, n) else addr + requests[n].size
  {
    var rs, more := requests[..n + 1], addrs + [addr];
    assert rs[..n] == requests[..n] && more[..n] == addrs;
    forall i | 0 <= i < n
      ensures AnswerOk(g, rs, more, i)
    {
      assert AnswerOk(g, requests[..n], addrs, i);
      EndOfPrefix(g, rs, more, n, i);
    }
    EndOfPrefix(g, rs, more, n, n);
  }

  /** The blocks are zeroed. */
  ghost predicate Zeroed(mem: seq<Byte>, blocks: seq<Block>) {
    forall i, k :: 0 <= i < |blocks| && 0 <= k < |mem| && blocks[i].addr <= k < blocks[i].addr + blocks[i].size ==>
      mem[k] == 0
  }

  lemma ZeroedAppend(was: seq<Byte>, mem: seq<Byte>, blocks: seq<Block>, b: Block)
    requires Zeroed(was, blocks) && |was| == |mem|
    requires forall k :: 0 <= k < |mem| ==> mem[k] == if b.addr <= k < b.addr + b.size then 0 else was[k]
    ensures Zeroed(mem, blocks + [b])
  {
  }

  /** The allocator after the first n requests and their answers. */
  ghost predicate Serving(a: Allocator, g: Region, requests: seq<Request>, addrs: seq<nat>, n: nat)
    requires n <= |requests| && Aligned(requests)
    reads a, a.mem
  {
    && a.Valid() && a.start == g.start && a.size == g.size && |addrs| == n
    && Answers(g, requests[..n], addrs)
    && a.next == End(g, requests[..n], addrs, n)
    && a.blocks == Granted(requests[..n], addrs)
    && Zeroed(a.mem[..], a.blocks)
  }

  method Serve(a: Allocator, g: Region, requests: seq<Request>, ghost addrs: seq<nat>, n: nat) returns (addr: nat)
    requires n < |requests| && Aligned(requests) && Serving(a, g, requests, addrs, n)
    modifies a, a.mem
    ensures Serving(a, g, requests, addrs + [addr], n + 1)
    ensures forall k :: 0 <= k < a.mem.Length && !(g.start <= k < g.start + g.size) ==> a.mem[k] == old(a.mem[k])
  {
    hide Answers, AnswerOk, Granted, End, IsPowerOfTwo, Zeroed;
    ghost var was := a.mem[..];
    addr := a.Alloc(requests[n].size, requests[n].align);
    if addr != 0 {
      ZeroedAppend(was, a.mem[..], Granted(requests[..n], addrs), Block(addr, requests[n].size));
    }
    AnswerStep(g, requests, addrs, n, addr);
    AnswersAppend(g, requests, addrs, n, addr);
  }

  /**
   * Any sequence of requests: the answers are those owed, the blocks granted lie in
   * the region without overlap and are zeroed, nothing outside the region is
   * written, and what is used and what is free add up.
   */
  method Execute(mem: array<Byte>, g: Region, requests: seq<Request>) returns (addrs: seq<nat>, used: nat, free: nat)
    requires g.start + g.size + 8 <= USIZE && g.start + g.size <= mem.Length
    requires Aligned(requests)
    modifies mem
    ensures Answers(g, requests, addrs)
    ensures used == End(g, requests, addrs, |requests|) - g.start && used + free == g.size
    ensures var blocks := Granted(requests, addrs);
            && Zeroed(mem[..], blocks)
            && (forall i, j :: 0 <= i < j < |blocks| ==> !Overlap(blocks[i], blocks[j]))
            && (forall i :: 0 <= i < |blocks| ==>
                  g.start <= blocks[i].addr && blocks[i].addr + blocks[i].size <= g.start + g.size)
    ensures forall k :: 0 <= k < mem.Length && !(g.start <= k < g.start + g.size) ==> mem[k] == old(mem[k])
  {
    hide Answers, Granted, End, IsPowerOfTwo, Zeroed, Aligned;
    NoAnswers(g);
    var a := new Allocator(mem);
    a.Init(g.start, g.size);
    addrs := [];
    var n := 0;
    while n < |requests|
      invariant 0 <= n <= |requests|
      invariant fresh(a) && a.mem == mem && Serving(a, g, requests, addrs, n)
      invariant forall k :: 0 <= k < mem.Length && !(g.start <= k < g.start + g.size) ==> mem[k] == old(mem[k])
    {
      var addr := Serve(a, g, requests, addrs, n);
      addrs := addrs + [addr];
      n := n + 1;
    }
    assert requests[..n] == requests;
    var count;
    used, free, count := a.Stats();
  }

  lemma NoAnswers(g: Region)
    ensures Answers(g, [], []) && Granted([], []) == [] && End(g, [], [], 0) == g.start
    ensures forall mem :: Zeroed(mem, [])
  {
  }

  lemma AnswerStep(g: Region, requests: seq<Request>, addrs: seq<nat>, n: nat, addr: nat)
    requires Aligned(requests) && n < |requests| && |addrs| == n
    requires Capped(requests[n].align) in {1, 2, 4, 8}
    requires var end := End(g, requests[..n], addrs, n);
             && (addr != 0 <==> Fits(g, end, requests[n]))
             && (addr != 0 ==> addr == AlignUp(end, Capped(requests[n].align)))
    ensures AnswerOk(g, requests[..n + 1], addrs + [addr], n)
  {
    assert requests[..n + 1][..n] == requests[..n] && (addrs + [addr])[..n] == addrs;
    EndOfPrefix(g, requests[..n + 1], addrs + [addr], n, n);
  }
}
