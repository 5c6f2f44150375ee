/**
 The PE32 heap (pe32_mmap_heap_backend.c, wine_heap.c): one anonymous mapping per
 block, a four-byte size header before the payload, and the Win32 heap calls on top.

 `Laid` ties the raw memory to the live blocks; `View` is the abstract heap, from
 payload pointers to contents, and every operation is specified on it.
 */
module Heap32 {
  import opened Bytes
  import opened Pe

  const MIN_ALLOC := 4096
  const HEADER := 4
  const MAX_SIZE := U32 - 8

  // The capacity of a block for a request, in 32-bit arithmetic.
  function Allocated(size: u32): (n: nat)
    ensures n >= MIN_ALLOC && n % 8 == 0 && n + HEADER < U32
  {
    var n := (size + 7) % U32 / 8 * 8;
    if n < MIN_ALLOC then MIN_ALLOC else n
  }

  // The block is the least multiple of 8 from 4096 bytes on that holds the request, exactly when rounding
  // up does not wrap; a request in the last seven bytes of the range gets a minimal block instead.
  lemma {:induction false} AllocatedFits(size: u32)
    ensures Allocated(size) >= size <==> size <= 0xFFFF_FFF8
    ensures size > 0xFFFF_FFF8 || size <= 4096 ==> Allocated(size) == 4096
    ensures 4096 <= size <= 0xFFFF_FFF8 ==> Allocated(size) < size + 8
  {
    if size <= MAX_SIZE {
      ModUnique(size + 7, U32, 0, size + 7);
    } else {
      ModUnique(size + 7, U32, 1, size + 7 - U32);
    }
  }

  // ---- Memory ----------------------------------------------------------------------------------

  type Memory = map<nat, byte>

  predicate Mapped(mem: Memory, at: int, n: nat) {
    forall k :: at <= k < at + n ==> k in mem
  }

  function Slice(mem: Memory, at: nat, n: nat): (s: seq<byte>)
    requires Mapped(mem, at, n)
    ensures |s| == n && forall k :: 0 <= k < n ==> s[k] == mem[at + k]
  {
    seq<byte>(n, k requires 0 <= k < n => assert at + k in mem; mem[at + k])
  }

  predicate Vacant(mem: Memory, at: int, n: nat) {
    forall k :: at <= k < at + n ==> k !in mem
  }

  function Range(at: nat, n: nat): (r: set<nat>)
    ensures forall k :: k in r <==> at <= k < at + n
  {
    if n == 0 then {} else Range(at, n - 1) + {at + n - 1}
  }

  function Write(mem: Memory, at: nat, s: seq<byte>): (r: Memory)
    ensures forall k :: k in r <==> k in mem || at <= k < at + |s|
    ensures forall k :: k in r ==> r[k] == if at <= k < at + |s| then s[k - at] else mem[k]
  {
    map k | k in mem.Keys + Range(at, |s|) :: if at <= k < at + |s| then s[k - at] else mem[k]
  }

  function Erase(mem: Memory, at: nat, n: nat): (r: Memory)
    ensures forall k :: k in r <==> k in mem && !(at <= k < at + n)
    ensures forall k :: k in r ==> r[k] == mem[k]
  {
    map k | k in mem && !(at <= k < at + n) :: mem[k]
  }

  // ---- Blocks ------------------------------------------------------------------------------------

  // The mapping behind the block at p: header, payload and the rest of the last page.
  predicate InBlock(p: nat, cap: nat, k: int) {
    p - HEADER <= k < p - HEADER + Pages(cap + HEADER)
  }

  predicate BlockOk(mem: Memory, p: nat, cap: nat) {
    && p > HEADER && cap >= MIN_ALLOC && cap + HEADER < U32 && p - HEADER + Pages(cap + HEADER) <= U32
    && Mapped(mem, p - HEADER, Pages(cap + HEADER))
    && Value(Slice(mem, p - HEADER, HEADER)) == cap
  }

  predicate BlocksApart(blocks: map<nat, nat>) {
    forall p, q :: p in blocks && q in blocks && p != q ==>
      Apart(p - HEADER, Pages(blocks[p] + HEADER), q - HEADER, Pages(blocks[q] + HEADER))
  }

  // The mapped bytes are exactly the live blocks' regions, which are disjoint, and each header
  // holds its block's capacity.
  predicate Laid(mem: Memory, blocks: map<nat, nat>) {
    && (forall p :: p in blocks ==> BlockOk(mem, p, blocks[p]))
    && BlocksApart(blocks) && Covered(mem, blocks)
  }

  lemma {:induction false} PayloadMapped(mem: Memory, p: nat, cap: nat)
    requires BlockOk(mem, p, cap)
    ensures Mapped(mem, p, cap) && Mapped(mem, p - HEADER, HEADER)
  {
  }

  // The abstract heap.
  ghost function View(mem: Memory, blocks: map<nat, nat>): (v: map<nat, seq<byte>>)
    requires Laid(mem, blocks)
    ensures v.Keys == blocks.Keys
  {
    map p | p in blocks :: (PayloadMapped(mem, p, blocks[p]); Slice(mem, p, blocks[p]))
  }

  // ---- What each step does to the layout and the view ----------------------------------------------

  lemma {:induction false} HeaderValue(cap: nat)
    requires cap < U32
    ensures Value(Word(cap, HEADER)) == cap
  {
    CapacityValues();
    ValueOfWord(cap, 4);
    ModUnique(cap, U32, 0, cap);
  }

  // A block keeps its header and payload when every mapped byte is kept, and cannot overlap
  // what was vacant.
  lemma {:induction false} BlockKept(mem: Memory, mem': Memory, q: nat, cap: nat)
    requires BlockOk(mem, q, cap)
    requires forall k :: InBlock(q, cap, k) ==> k in mem' && mem'[k] == mem[k]
    ensures BlockOk(mem', q, cap) && Mapped(mem, q, cap) && Mapped(mem', q, cap)
    ensures Slice(mem', q, cap) == Slice(mem, q, cap)
  {
    hide Value, Pages;
    assert Slice(mem', q - HEADER, HEADER) == Slice(mem, q - HEADER, HEADER);
  }

  lemma {:induction false} VacantApart(mem: Memory, q: nat, cap: nat, base: nat, n: nat)
    requires BlockOk(mem, q, cap) && Vacant(mem, base, n) && n > 0
    ensures Apart(base, n, q - HEADER, Pages(cap + HEADER))
  {
    hide Value, Pages, Slice;
    var at, m := q - HEADER, Pages(cap + HEADER);
    assert at in mem && (at <= base < at + m ==> base in mem);
  }

  predicate Covered(mem: Memory, blocks: map<nat, nat>) {
    forall k :: k in mem ==> exists p :: p in blocks && InBlock(p, blocks[p], k)
  }

  lemma {:induction false} NewCovered(mem: Memory, mem': Memory, blocks: map<nat, nat>, p: nat, cap: nat)
    requires Covered(mem, blocks) && p !in blocks && forall k :: k in mem' ==> k in mem || InBlock(p, cap, k)
    ensures Covered(mem', blocks[p := cap])
  {
    hide InBlock;
    var blocks' := blocks[p := cap];
    forall k | k in mem' ensures exists q :: q in blocks' && InBlock(q, blocks'[q], k) {
      if k in mem {
        var q :| q in blocks && InBlock(q, blocks[q], k);
        assert InBlock(q, blocks'[q], k);
      } else {
        assert InBlock(p, blocks'[p], k);
      }
    }
  }

  lemma {:induction false} NewLaid(mem: Memory, mem': Memory, blocks: map<nat, nat>, p: nat, cap: nat)
    requires Laid(mem, blocks) && BlockOk(mem', p, cap) && Vacant(mem, p - HEADER, Pages(cap + HEADER))
    requires forall k :: k in mem ==> k in mem' && mem'[k] == mem[k]
    requires forall k :: k in mem' ==> k in mem || InBlock(p, cap, k)
    ensures p !in blocks && Laid(mem', blocks[p := cap])
  {
    hide Value, Pages, Slice, InBlock, BlockOk, Covered;
    BlockBytes(mem', p, cap);
    assert Pages(cap + HEADER) > 0;
    forall q | q in blocks
      ensures BlockOk(mem', q, blocks[q]) && q != p
      ensures Apart(p - HEADER, Pages(cap + HEADER), q - HEADER, Pages(blocks[q] + HEADER))
    {
      BlockBytes(mem, q, blocks[q]);
      BlockKept(mem, mem', q, blocks[q]);
      VacantApart(mem, q, blocks[q], p - HEADER, Pages(cap + HEADER));
    }
    NewCovered(mem, mem', blocks, p, cap);
  }

  lemma {:induction false} BlockBytes(mem: Memory, q: nat, cap: nat)
    requires BlockOk(mem, q, cap)
    ensures q > HEADER && forall k :: InBlock(q, cap, k) ==> k in mem
  {
  }

  lemma {:induction false} NewView(mem: Memory, mem': Memory, blocks: map<nat, nat>, p: nat, cap: nat, s: seq<byte>)
    requires Laid(mem, blocks) && p !in blocks && Laid(mem', blocks[p := cap])
    requires forall k :: k in mem ==> k in mem' && mem'[k] == mem[k]
    requires Mapped(mem', p, cap) && Slice(mem', p, cap) == s
    ensures View(mem', blocks[p := cap]) == View(mem, blocks)[p := s]
  {
    hide Slice, BlockOk, BlocksApart, InBlock;
    forall q | q in blocks ensures View(mem', blocks[p := cap])[q] == View(mem, blocks)[q] {
      BlockBytes(mem, q, blocks[q]);
      BlockKept(mem, mem', q, blocks[q]);
    }
  }

  // A fresh region with its header written is a new block of zeros.
  lemma {:induction false} NewBlock(mem: Memory, blocks: map<nat, nat>, base: nat, cap: nat)
    requires Laid(mem, blocks) && base > 0 && cap >= MIN_ALLOC && cap + HEADER < U32
    requires base + Pages(cap + HEADER) <= U32 && Vacant(mem, base, Pages(cap + HEADER))
    ensures
      var mem', p := Write(Write(mem, base, Zeros(Pages(cap + HEADER))), base, Word(cap, HEADER)), base + HEADER;
      p !in blocks && Laid(mem', blocks[p := cap]) && View(mem', blocks[p := cap]) == View(mem, blocks)[p := Zeros(cap)]
  {
    hide Word, Value, Pages, Laid, View;
    HeaderValue(cap);
    var mem', p := Write(Write(mem, base, Zeros(Pages(cap + HEADER))), base, Word(cap, HEADER)), base + HEADER;
    assert Slice(mem', base, HEADER) == Word(cap, HEADER);
    NewLaid(mem, mem', blocks, p, cap);
    assert Slice(mem', p, cap) == Zeros(cap);
    NewView(mem, mem', blocks, p, cap, Zeros(cap));
  }

  ghost predicate Keeps(mem: Memory, mem': Memory, q: nat, cap: nat) {
    forall k :: InBlock(q, cap, k) ==> k in mem && k in mem' && mem'[k] == mem[k]
  }

  // Bytes outside p's region, or inside it but outside every other region, do not matter to q.
  lemma {:induction false} OthersKept(mem: Memory, mem': Memory, blocks: map<nat, nat>, p: nat, q: nat)
    requires Laid(mem, blocks) && p in blocks && q in blocks && p != q
    requires forall k :: k in mem && !InBlock(p, blocks[p], k) ==> k in mem' && mem'[k] == mem[k]
    ensures Keeps(mem, mem', q, blocks[q]) && BlockOk(mem, q, blocks[q]) && BlockOk(mem', q, blocks[q])
    ensures Mapped(mem, q, blocks[q]) && Mapped(mem', q, blocks[q])
    ensures Slice(mem', q, blocks[q]) == Slice(mem, q, blocks[q])
  {
    hide Value, Pages, Slice, BlockOk;
    assert BlockOk(mem, q, blocks[q]);
    BlockBytes(mem, q, blocks[q]);
    assert Apart(p - HEADER, Pages(blocks[p] + HEADER), q - HEADER, Pages(blocks[q] + HEADER));
    BlockKept(mem, mem', q, blocks[q]);
  }

  lemma {:induction false} FreeCovered(mem: Memory, mem': Memory, blocks: map<nat, nat>, p: nat)
    requires Covered(mem, blocks) && p in blocks && forall k :: k in mem' ==> k in mem && !InBlock(p, blocks[p], k)
    ensures Covered(mem', blocks - {p})
  {
    hide InBlock;
    var blocks' := blocks - {p};
    forall k | k in mem' ensures exists q :: q in blocks' && InBlock(q, blocks'[q], k) {
      var q :| q in blocks && InBlock(q, blocks[q], k);
      assert q in blocks' && InBlock(q, blocks'[q], k);
    }
  }

  lemma {:induction false} FreeLaid(mem: Memory, mem': Memory, blocks: map<nat, nat>, p: nat)
    requires Laid(mem, blocks) && p in blocks
    requires forall k :: k in mem' <==> k in mem && !InBlock(p, blocks[p], k)
    requires forall k :: k in mem' ==> mem'[k] == mem[k]
    ensures Laid(mem', blocks - {p})
  {
    hide BlockOk, InBlock, Covered, Pages;
    var blocks' := blocks - {p};
    FreeCovered(mem, mem', blocks, p);
    forall q | q in blocks' ensures BlockOk(mem', q, blocks'[q]) {
      OthersKept(mem, mem', blocks, p, q);
    }
  }

  // Unmapping a block's region leaves the other blocks as they were.
  lemma {:induction false} FreeBlock(mem: Memory, blocks: map<nat, nat>, p: nat)
    requires Laid(mem, blocks) && p in blocks && p > HEADER
    ensures
      var mem' := Erase(mem, p - HEADER, Pages(blocks[p] + HEADER));
      Laid(mem', blocks - {p}) && View(mem', blocks - {p}) == View(mem, blocks) - {p}
  {
    hide Laid, Pages, Slice;
    var mem', blocks' := Erase(mem, p - HEADER, Pages(blocks[p] + HEADER)), blocks - {p};
    FreeLaid(mem, mem', blocks, p);
    forall q | q in blocks' ensures View(mem', blocks')[q] == View(mem, blocks)[q] {
      OthersKept(mem, mem', blocks, p, q);
    }
  }

  lemma {:induction false} WriteLaid(mem: Memory, blocks: map<nat, nat>, p: nat, d: nat, s: seq<byte>)
    requires Laid(mem, blocks) && p in blocks && d + |s| <= blocks[p]
    ensures Laid(Write(mem, p + d, s), blocks) && Mapped(mem, p, blocks[p])
    ensures Mapped(Write(mem, p + d, s), p, blocks[p])
  {
    hide Value, Pages;
    var mem', cap := Write(mem, p + d, s), blocks[p];
    assert BlockOk(mem, p, cap);
    PayloadMapped(mem, p, cap);
    assert forall k :: p + d <= k < p + d + |s| ==> k in mem;
    assert Slice(mem', p - HEADER, HEADER) == Slice(mem, p - HEADER, HEADER);
    assert BlockOk(mem', p, cap);
    forall q | q in blocks ensures BlockOk(mem', q, blocks[q]) {
      if q != p { OthersKept(mem, mem', blocks, p, q); }
    }
  }

  // Writing inside one payload changes that block's contents and nothing else.
  lemma {:induction false} WritePayload(mem: Memory, blocks: map<nat, nat>, p: nat, d: nat, s: seq<byte>)
    requires Laid(mem, blocks) && p in blocks && d + |s| <= blocks[p]
    ensures
      var mem', was := Write(mem, p + d, s), View(mem, blocks)[p];
      |was| == blocks[p] && Laid(mem', blocks)
        && View(mem', blocks) == View(mem, blocks)[p := was[..d] + s + was[d + |s|..]]
  {
    hide Laid, Pages;
    var mem', cap := Write(mem, p + d, s), blocks[p];
    WriteLaid(mem, blocks, p, d, s);
    InPayload(mem, blocks, p);
    forall q | q in blocks && q != p ensures View(mem', blocks)[q] == View(mem, blocks)[q] {
      OthersKept(mem, mem', blocks, p, q);
    }
    var was := Slice(mem, p, cap);
    assert Slice(mem', p, cap) == was[..d] + s + was[d + |s|..];
  }

  lemma {:induction false} InPayload(mem: Memory, blocks: map<nat, nat>, p: nat)
    requires Laid(mem, blocks) && p in blocks
    ensures p > HEADER && forall k :: p <= k < p + blocks[p] ==> InBlock(p, blocks[p], k)
  {
    assert BlockOk(mem, p, blocks[p]);
  }

  // ---- The backend --------------------------------------------------------------------------------------

  // The header of a live block, read from memory, is its capacity.
  lemma {:induction false} HeaderHolds(mem: Memory, blocks: map<nat, nat>, p: nat)
    requires Laid(mem, blocks) && p in blocks
    ensures p > HEADER && Mapped(mem, p - HEADER, HEADER) && Value(Slice(mem, p - HEADER, HEADER)) == blocks[p]
    ensures Mapped(mem, p, blocks[p]) && View(mem, blocks)[p] == Slice(mem, p, blocks[p])
    ensures MIN_ALLOC <= blocks[p] && blocks[p] + HEADER < U32
  {
    assert BlockOk(mem, p, blocks[p]);
    PayloadMapped(mem, p, blocks[p]);
  }

  lemma {:induction false} Overlaid(n: nat, data: seq<byte>)
    requires |data| <= n
    ensures Zeros(n)[..0] + data + Zeros(n)[0 + |data|..] == data + Zeros(n - |data|)
  {
  }

  // A block that is replaced by one elsewhere.
  lemma {:induction false} BlockMoved(v: map<nat, seq<byte>>, p: nat, q: nat, x: seq<byte>, y: seq<byte>)
    requires p in v && q !in v
    ensures v[q := x][q := y] - {p} == (v - {p})[q := y]
  {
  }

  // Clearing the tail of a block that is zero there already changes nothing.
  lemma {:induction false} TailZero(v: map<nat, seq<byte>>, q: nat, was: seq<byte>, cap: nat, bytes: nat)
    requires q in v && |was| < bytes <= cap && v[q] == was + Zeros(cap - |was|)
    ensures v[q := v[q][..|was|] + Zeros(bytes - |was|) + v[q][|was| + |Zeros(bytes - |was|)|..]] == v
  {
    assert v[q][..|was|] + Zeros(bytes - |was|) + v[q][bytes..] == v[q];
  }

  class Backend {
    var mem: Memory
    ghost var blocks: map<nat, nat>
    // How often the kernel had no room.
    ghost var refusals: nat

    ghost predicate Valid()
      reads this
    {
      Laid(mem, blocks)
    }

    ghost function Heap(): map<nat, seq<byte>>
      requires Valid()
      reads this
    {
      View(mem, blocks)
    }

    constructor ()
      ensures Valid() && Heap() == map[]
    {
      mem, blocks, refusals := map[], map[], 0;
    }

    // A new block of zeros, or null when nothing is asked for or the kernel has no room.
    method Malloc(size: u32) returns (p: nat)
      requires Valid()
      modifies this
      ensures Valid() && (size == 0 ==> p == 0)
      ensures refusals == old(refusals) + if p == 0 && size != 0 then 1 else 0
      ensures p == 0 ==> Heap() == old(Heap())
      ensures p != 0 ==> p !in old(Heap()) && Heap() == old(Heap())[p := Zeros(Allocated(size))]
    {
      hide Laid, View, Write, Allocated, Pages, Word;
      if size == 0 { return 0; }
      var cap := Allocated(size);
      var base: nat := *;
      if base <= 0 || base + Pages(cap + HEADER) > U32 || !Vacant(mem, base, Pages(cap + HEADER)) {
        refusals := refusals + 1;
        return 0;
      }
      NewBlock(mem, blocks, base, cap);
      mem := Write(mem, base, Zeros(Pages(cap + HEADER)));
      mem := Write(mem, base, Word(cap, HEADER));
      p := base + HEADER;
      blocks := blocks[p := cap];
    }

    // Unmap the block whose header says how long it is.
    method Free(p: nat)
      requires Valid() && (p == 0 || p in Heap())
      modifies this
      ensures Valid() && Heap() == old(Heap()) - {p}
    {
      hide Laid, View, Erase, Pages, Value;
      if p == 0 {
        assert 0 !in Heap() by { NoNull(mem, blocks); }
        assert Heap() - {0} == Heap();
        return;
      }
      HeaderHolds(mem, blocks, p);
      FreeBlock(mem, blocks, p);
      var alloc := Value(Slice(mem, p - HEADER, HEADER)) + HEADER;
      mem := Erase(mem, p - HEADER, Pages(alloc));
      blocks := blocks - {p};
    }

    // Shrinking keeps the block; growing moves it, with all its old bytes, to a longer one. A
    // size that wraps gets a minimal block, into which a longer old block would not fit.
    method Realloc(p: nat, size: u32) returns (q: nat)
      requires Valid() && (p == 0 || p in Heap()) && (size <= MAX_SIZE || p == 0 || |Heap()[p]| <= MIN_ALLOC)
      modifies this
      ensures Valid() && (q == 0 ==> size == 0 || refusals > old(refusals))
      ensures p == 0 && q == 0 ==> Heap() == old(Heap())
      ensures p == 0 && q != 0 ==> q !in old(Heap()) && Heap() == old(Heap())[q := Zeros(Allocated(size))]
      ensures p != 0 && size == 0 ==> q == 0 && Heap() == old(Heap()) - {p}
      ensures p != 0 && 0 < size <= |old(Heap())[p]| ==> q == p && Heap() == old(Heap())
      ensures p != 0 && size > |old(Heap())[p]| && q == 0 ==> Heap() == old(Heap())
      ensures p != 0 && size > |old(Heap())[p]| && q != 0 ==>
        var was := old(Heap())[p];
        && q !in old(Heap()) && Allocated(size) >= |was| && (size <= MAX_SIZE ==> Allocated(size) >= size)
        && Heap() == (old(Heap()) - {p})[q := was + Zeros(Allocated(size) - |was|)]
    {
      hide Laid, View, Write, Allocated, Value;
      AllocatedFits(size);
      if p == 0 {
        q := Malloc(size);
        return;
      }
      HeaderHolds(mem, blocks, p);
      if size == 0 {
        Free(p);
        return 0;
      }
      var cap := Value(Slice(mem, p - HEADER, HEADER));
      if size <= cap { return p; }
      q := Malloc(size);
      if q == 0 { return 0; }
      HeaderHolds(mem, blocks, p);
      HeaderHolds(mem, blocks, q);
      var data := Slice(mem, p, cap);
      WritePayload(mem, blocks, q, 0, data);
      mem := Write(mem, q, data);
      Overlaid(Allocated(size), data);
      BlockMoved(old(Heap()), p, q, Zeros(Allocated(size)), data + Zeros(Allocated(size) - cap));
      Free(p);
    }

    // Null exactly when the product overflows, is zero or finds no room; zeros otherwise.
    method Calloc(n: u32, s: u32) returns (p: nat)
      requires Valid() && (n * s >= U32 || n * s <= MAX_SIZE)
      modifies this
      ensures Valid() && (n * s >= U32 || n * s == 0 ==> p == 0)
      ensures p == 0 ==> n * s >= U32 || n * s == 0 || refusals > old(refusals)
      ensures p == 0 ==> Heap() == old(Heap())
      ensures p != 0 ==> n * s < U32 && p !in old(Heap()) && Heap() == old(Heap())[p := Zeros(Allocated(n * s))]
    {
      hide Laid, View, Write, Allocated;
      var total: u32 := (n * s) % U32;
      ProductOverflow(n, s);
      if s != 0 && total / s != n { return 0; }
      AllocatedFits(total);
      p := Malloc(total);
      if p != 0 {
        HeaderHolds(mem, blocks, p);
        WritePayload(mem, blocks, p, 0, Zeros(total));
        mem := Write(mem, p, Zeros(total));
        assert Heap()[p] == Zeros(Allocated(total));
        assert Heap() == old(Heap())[p := Zeros(Allocated(total))];
      }
    }

    method UsableSize(p: nat) returns (n: nat)
      requires Valid() && (p == 0 || p in Heap())
      ensures n == if p == 0 then 0 else |Heap()[p]|
    {
      hide Laid, View, Value;
      if p == 0 { return 0; }
      HeaderHolds(mem, blocks, p);
      n := Value(Slice(mem, p - HEADER, HEADER));
    }

    // A guest store inside a block it owns.
    method Fill(p: nat, d: nat, s: seq<byte>)
      requires Valid() && p in Heap() && d + |s| <= |Heap()[p]|
      modifies this
      ensures Valid() && var was := old(Heap())[p]; Heap() == old(Heap())[p := was[..d] + s + was[d + |s|..]]
    {
      hide Laid, View, Write;
      HeaderHolds(mem, blocks, p);
      WritePayload(mem, blocks, p, d, s);
      mem := Write(mem, p + d, s);
    }
  }

  lemma {:induction false} NoNull(mem: Memory, blocks: map<nat, nat>)
    requires Laid(mem, blocks)
    ensures 0 !in View(mem, blocks)
  {
    forall p | p in blocks ensures p > HEADER {
      assert BlockOk(mem, p, blocks[p]);
    }
  }

  lemma {:induction false} MulLess(s: nat, a: nat, b: nat)
    ensures s * a < s * b ==> a < b
  {
    if a >= b {
      assert s * a == s * b + s * (a - b);
    }
  }

  // The division test catches exactly the products that do not fit in 32 bits.
  lemma {:induction false} ProductOverflow(n: u32, s: u32)
    ensures s == 0 || n * s % U32 / s != n <==> s == 0 || n * s >= U32
    ensures n * s < U32 ==> n * s % U32 == n * s
  {
    if s != 0 {
      if n * s < U32 {
        ModUnique(n * s, U32, 0, n * s);
        ModUnique(n * s, s, n, 0);
      } else {
        var r := n * s % U32;
        assert r == s * (r / s) + r % s;
        MulLess(s, r / s, n);
      }
    }
  }

  // ---- The Win32 heap ----------------------------------------------------------------------------------

  const MAX_HANDLES := 64

  predicate HandlesDistinct(s: seq<nat>) {
    forall i, j :: 0 <= i < j < |s| && s[i] != 0 ==> s[i] != s[j]
  }

  // Heap handles all draw on one backend; a handle is valid while it is in the table.
  class WineHeap {
    const backend: Backend
    const handles: array<nat>
    var processHeap: nat
    ghost var refusals: nat

    ghost predicate Valid()
      reads this, backend, handles
    {
      backend.Valid() && handles.Length == MAX_HANDLES && HandlesDistinct(handles[..])
    }

    ghost predicate Live(h: nat)
      reads handles
    {
      h != 0 && h in handles[..]
    }

    constructor ()
      ensures Valid() && fresh(backend) && fresh(handles) && backend.Heap() == map[] && forall h :: !Live(h)
      ensures handles.Length == 64
    {
      backend := new Backend();
      handles := new nat[MAX_HANDLES](_ => 0);
      processHeap, refusals := 0, 0;
    }

    // The index of a handle in the table.
    method HandleFind(h: nat) returns (r: Option<nat>)
      ensures r.None? <==> h !in handles[..]
      ensures r.Some? ==> r.value < handles.Length && handles[r.value] == h
    {
      for i := 0 to handles.Length
        invariant h !in handles[..i]
      {
        if handles[i] == h { return Some(i); }
      }
      assert handles[..] == handles[..handles.Length];
      return None;
    }

    // A new handle, unless the kernel refuses or the table is full. No block is touched.
    method HeapCreate() returns (h: nat)
      requires Valid()
      modifies handles, this`refusals
      ensures Valid() && (h != 0 ==> !old(Live(h)) && Live(h))
      ensures h == 0 ==> 0 !in old(handles[..]) || refusals > old(refusals)
      ensures forall g :: g != h ==> (Live(g) <==> old(Live(g)))
    {
      h := *;
      if h <= 0 || h in handles[..] {
        refusals := refusals + 1;
        return 0;
      }
      for i := 0 to handles.Length
        invariant handles[..] == old(handles[..]) && 0 !in handles[..i]
      {
        if handles[i] == 0 {
          handles[i] := h;
          assert handles[..] == old(handles[..])[i := h];
          assert handles[i] == h;
          forall g | g != h && g != 0 ensures g in handles[..] <==> g in old(handles[..]) {
            if k :| 0 <= k < handles.Length && old(handles[..])[k] == g { assert handles[..][k] == g; }
          }
          return;
        }
      }
      assert handles[..] == handles[..handles.Length];
      return 0;
    }

    // With the zero flag the whole request is cleared, so it has to fit its block.
    method HeapAlloc(h: nat, zero: bool, bytes: u32) returns (p: nat)
      requires Valid() && (zero ==> bytes <= MAX_SIZE)
      modifies backend
      ensures Valid() && (!Live(h) || bytes == 0 ==> p == 0)
      ensures p == 0 ==> !Live(h) || bytes == 0 || backend.refusals > old(backend.refusals)
      ensures p == 0 ==> backend.Heap() == old(backend.Heap())
      ensures p != 0 ==>
        && p !in old(backend.Heap()) && (bytes <= MAX_SIZE ==> bytes <= Allocated(bytes))
        && backend.Heap() == old(backend.Heap())[p := Zeros(Allocated(bytes))]
    {
      hide Laid, View, Allocated;
      var i := HandleFind(h);
      if h == 0 || i.None? || bytes == 0 { return 0; }
      AllocatedFits(bytes);
      p := backend.Malloc(bytes);
      if p != 0 && zero {
        backend.Fill(p, 0, Zeros(bytes));
        assert backend.Heap()[p] == Zeros(Allocated(bytes));
        assert backend.Heap() == old(backend.Heap())[p := Zeros(Allocated(bytes))];
      }
    }

    method HeapFree(h: nat, p: nat) returns (ok: bool)
      requires Valid() && (p == 0 || p in backend.Heap())
      modifies backend
      ensures Valid() && (ok <==> Live(h))
      ensures backend.Heap() == if ok then old(backend.Heap()) - {p} else old(backend.Heap())
    {
      hide Laid, View;
      var i := HandleFind(h);
      if h == 0 || i.None? { return false; }
      backend.Free(p);
      return true;
    }

    // All bytes of the old capacity are kept, and with the zero flag everything from there to
    // the new size is zero; the block moves only when it has to grow.
    method HeapReAlloc(h: nat, zero: bool, p: nat, bytes: u32) returns (q: nat)
      requires Valid() && (p == 0 || p in backend.Heap())
      requires bytes <= MAX_SIZE || (!zero && (p == 0 || |backend.Heap()[p]| <= MIN_ALLOC))
      modifies backend
      ensures Valid()
      ensures !Live(h) ==> q == 0 && backend.Heap() == old(backend.Heap())
      ensures q == 0 ==> !Live(h) || bytes == 0 || backend.refusals > old(backend.refusals)
      ensures q != 0 ==>
        var was := if p == 0 then [] else old(backend.Heap())[p];
        && bytes > 0 && q in backend.Heap()
        && (p != 0 && bytes <= |was| ==> q == p && backend.Heap() == old(backend.Heap()))
        && (p == 0 || bytes > |was| ==>
            && |was| <= Allocated(bytes) && (bytes <= MAX_SIZE ==> bytes <= Allocated(bytes))
            && q !in old(backend.Heap())
            && backend.Heap() == (old(backend.Heap()) - {p})[q := was + Zeros(Allocated(bytes) - |was|)])
      ensures q == 0 ==>
        backend.Heap() == if Live(h) && p != 0 && bytes == 0 then old(backend.Heap()) - {p} else old(backend.Heap())
    {
      hide Laid, View, Allocated;
      var i := HandleFind(h);
      if h == 0 || i.None? { return 0; }
      AllocatedFits(bytes);
      NoNull(backend.mem, backend.blocks);
      var oldSize := 0;
      if p != 0 {
        oldSize := backend.UsableSize(p);
        q := backend.Realloc(p, bytes);
      } else {
        assert backend.Heap() - {0} == backend.Heap();
        q := backend.Malloc(bytes);
        assert [] + Zeros(Allocated(bytes)) == Zeros(Allocated(bytes));
      }
      if q != 0 && zero && bytes > oldSize {
        ghost var heap, was := backend.Heap(), if p == 0 then [] else old(backend.Heap())[p];
        TailZero(heap, q, was, Allocated(bytes), bytes);
        backend.Fill(q, oldSize, Zeros(bytes - oldSize));
      }
    }

    // The handle goes; the blocks allocated through it stay.
    method HeapDestroy(h: nat) returns (ok: bool)
      requires Valid()
      modifies this`processHeap, handles
      ensures Valid() && (ok <==> old(Live(h))) && !Live(h)
      ensures forall g :: g != h ==> (Live(g) <==> old(Live(g)))
      ensures processHeap == if ok && old(processHeap) == h then 0 else old(processHeap)
    {
      var i := HandleFind(h);
      if h == 0 || i.None? { return false; }
      handles[i.value] := 0;
      assert handles[..] == old(handles[..])[i.value := 0];
      forall g | g != h && g != 0 ensures g in handles[..] <==> g in old(handles[..]) {
        if k :| 0 <= k < handles.Length && old(handles[..])[k] == g { assert handles[..][k] == g; }
      }
      if h == processHeap { processHeap := 0; }
      return true;
    }

    method HeapSize(h: nat, p: nat) returns (n: nat)
      requires Valid() && (p == 0 || p in backend.Heap())
      ensures n == if Live(h) && p != 0 then |backend.Heap()[p]| else U32 - 1
    {
      hide Laid, View;
      var i := HandleFind(h);
      if h == 0 || i.None? || p == 0 { return U32 - 1; }
      n := backend.UsableSize(p);
    }
  }
}
