/**
 `_mm_malloc` and `_mm_free` of include/xmmintrin.h: an over-allocated block, an aligned pointer
 inside it, and the address of the block kept in the eight bytes below the pointer.
 */
module AlignedAlloc {
  import opened Bytes
  import opened Arith
  import opened Bits
  import opened BitScatter

  const ADDRESS_SPACE: nat := 0x1_0000_0000_0000_0000
  const PTR_BYTES: nat := 8

  // ---- byte memory ----

  type Memory = map<nat, Byte>

  function Peek(mem: Memory, a: nat): Byte {
    if a in mem then mem[a] else 0
  }

  /** A little-endian word of `n` bytes at `a`. */
  function Load(mem: Memory, a: nat, n: nat): nat
    decreases n
  {
    if n == 0 then 0 else Peek(mem, a) + 256 * Load(mem, a + 1, n - 1)
  }

  function Store(mem: Memory, a: nat, v: nat, n: nat): Memory
    decreases n
  {
    if n == 0 then mem else Store(mem[a := v % 256], a + 1, v / 256, n - 1)
  }

  function Range(n: nat): nat {
    if n == 0 then 1 else 256 * Range(n - 1)
  }

  lemma {:induction false} StoreOutside(mem: Memory, a: nat, v: nat, n: nat, b: nat)
    requires b < a || b >= a + n
    ensures Peek(Store(mem, a, v, n), b) == Peek(mem, b)
    decreases n
  {
    if n > 0 { StoreOutside(mem[a := v % 256], a + 1, v / 256, n - 1, b); }
  }

  lemma {:induction false} LoadSame(mem: Memory, mem': Memory, a: nat, n: nat)
    requires forall b: nat :: a <= b < a + n ==> Peek(mem, b) == Peek(mem', b)
    ensures Load(mem, a, n) == Load(mem', a, n)
    decreases n
  {
    if n > 0 { LoadSame(mem, mem', a + 1, n - 1); }
  }

  /** A stored pointer is read back, byte by byte. */
  lemma {:induction false} LoadOfStore(mem: Memory, a: nat, v: nat, n: nat)
    requires v < Range(n)
    ensures Load(Store(mem, a, v, n), a, n) == v
    decreases n
  {
    if n > 0 {
      var first := mem[a := v % 256];
      LoadOfStore(first, a + 1, v / 256, n - 1);
      StoreOutside(first, a + 1, v / 256, n - 1, a);
    }
  }

  lemma EightBytes()
    ensures Range(PTR_BYTES) == ADDRESS_SPACE == Pow2(64)
  {
    assert Range(2) == 65536 && Range(PTR_BYTES) == 65536 * 65536 * 65536 * 65536;
    assert Pow2(8) == 256;
    Pow2Add(8, 8);
    Pow2Add(16, 16);
    Pow2Add(32, 32);
  }

  // ---- the aligned pointer ----

  ghost predicate PowerOfTwo(a: nat) {
    exists k: nat :: a == Pow2(k)
  }

  /** What `_mm_malloc` asks of the C library, in wrapping arithmetic. */
  function Request(size: nat, align: nat): nat {
    (size + align + PTR_BYTES) % ADDRESS_SPACE
  }

  /** `(raw + sizeof(void *) + align - 1) & ~(align - 1)`. */
  function AlignedPointer(raw: nat, align: nat): nat
    requires align > 0
  {
    AndNot((raw + PTR_BYTES + align - 1) % ADDRESS_SPACE, align - 1)
  }

  lemma {:induction false} ClearLow(x: nat, k: nat)
    ensures AndNot(x, Ones(k)) + LowBits(x, k) == x
  {
    if k == 0 {
      AndNotZero(x);
    } else if x > 0 {
      ClearLow(x / 2, k - 1);
    } else {
      LowBitsZero(k);
    }
  }

  lemma {:induction false} AndNotZero(x: nat)
    ensures AndNot(x, 0) == x
  {
    if x > 0 { AndNotZero(x / 2); }
  }

  /** Rounding down to a multiple of a power of two. */
  lemma RoundDown(x: nat, align: nat)
    requires PowerOfTwo(align)
    ensures var p := AndNot(x, align - 1); p <= x < p + align && p % align == 0
  {
    var k: nat :| align == Pow2(k);
    OnesIsPow2(k);
    ClearLow(x, k);
    var q := LowBitsQuotient(x, k);
    hide Pow2, LowBits, AndNot, Ones;
    ModUnique(AndNot(x, align - 1), align, q, 0);
  }

  /** The pointer is aligned; slot and payload lie inside the block, one after the other. */
  predicate Placed(raw: nat, total: nat, ptr: nat, size: nat, align: nat)
    requires align > 0
  {
    ptr % align == 0 && raw + PTR_BYTES <= ptr && ptr + size <= raw + total
  }

  /** The block the code asks for holds slot and payload exactly when the request does not wrap. */
  lemma FitsExactly(raw: nat, size: nat, align: nat)
    requires PowerOfTwo(align) && PTR_BYTES < align < ADDRESS_SPACE && 0 < size < ADDRESS_SPACE
    requires raw + Request(size, align) <= ADDRESS_SPACE
    ensures Placed(raw, Request(size, align), AlignedPointer(raw, align), size, align) <==> size + align + PTR_BYTES < ADDRESS_SPACE
  {
    var sum := size + align + PTR_BYTES;
    if sum < ADDRESS_SPACE {
      SmallMod(sum, ADDRESS_SPACE);
      SmallMod(raw + PTR_BYTES + align - 1, ADDRESS_SPACE);
      RoundDown(raw + PTR_BYTES + align - 1, align);
    } else {
      LargestPower(align);
      ModUnique(sum, ADDRESS_SPACE, 1, sum - ADDRESS_SPACE);
    }
  }

  /** A request that wraps: all but sixteen bytes of the address space, and a block of eight is asked for. */
  lemma WrappingRequest()
    ensures Request(ADDRESS_SPACE - 16, 16) == 8
    ensures !Placed(4096, 8, AlignedPointer(4096, 16), ADDRESS_SPACE - 16, 16)
  {
    assert Pow2(4) == 16;
    ModUnique(ADDRESS_SPACE + 8, ADDRESS_SPACE, 1, 8);
    hide AlignedPointer;
    FitsExactly(4096, ADDRESS_SPACE - 16, 16);
  }

  /** A power of two that fits a word is at most half of it. */
  lemma LargestPower(align: nat)
    requires PowerOfTwo(align) && align < ADDRESS_SPACE
    ensures 2 * align <= ADDRESS_SPACE
  {
    EightBytes();
    var k: nat :| align == Pow2(k);
    if k >= 64 { Pow2Monotone(64, k); }
    Pow2Monotone(k + 1, 64);
  }

  // ---- the allocator as a state machine ----

  /** A block handed to a client: the library's pointer behind it, and what the client asked for. */
  datatype Block = Block(raw: nat, size: nat, align: nat)

  /** Memory, the blocks the C library has live, and the aligned pointers clients hold. */
  datatype State = State(mem: Memory, raws: map<nat, nat>, live: map<nat, Block>)

  predicate Apart(a: nat, n: nat, b: nat, m: nat) {
    a + n <= b || b + m <= a
  }

  /** A fresh block of the C library: not null, inside the address space, away from every live one. */
  predicate FreshBlock(raws: map<nat, nat>, base: nat, n: nat) {
    && 0 < base < ADDRESS_SPACE && base + n <= ADDRESS_SPACE && base !in raws
    && (forall b :: b in raws ==> Apart(base, n, b, raws[b]))
  }

  lemma FreshBounds(raws: map<nat, nat>, base: nat, n: nat)
    requires FreshBlock(raws, base, n)
    ensures 0 < base < ADDRESS_SPACE && base + n <= ADDRESS_SPACE
  {
  }

  predicate LiveBlock(s: State, p: nat) {
    && p in s.live
    && var b := s.live[p];
       && b.align > PTR_BYTES && b.size > 0 && b.raw in s.raws
       && Placed(b.raw, s.raws[b.raw], p, b.size, b.align)
       && Load(s.mem, p - PTR_BYTES, PTR_BYTES) == b.raw
  }

  /** The C library's blocks lie in the address space and do not overlap. */
  predicate RawsApart(raws: map<nat, nat>) {
    && (forall a :: a in raws ==> 0 < a && a + raws[a] <= ADDRESS_SPACE)
    && (forall a, b :: a in raws && b in raws && a != b ==> Apart(a, raws[a], b, raws[b]))
  }

  /** Every aligned pointer has a block of its own. */
  predicate OwnBlocks(live: map<nat, Block>) {
    forall p, q :: p in live && q in live && p != q ==> live[p].raw != live[q].raw
  }

  predicate AllLive(s: State) {
    forall p :: p in s.live ==> LiveBlock(s, p)
  }

  predicate Inv(s: State) {
    RawsApart(s.raws) && AllLive(s) && OwnBlocks(s.live)
  }

  lemma LiveOf(s: State, p: nat)
    requires Inv(s) && p in s.live
    ensures LiveBlock(s, p)
  {
  }

  /** Where `((void **)p)[-1]` lies. */
  function Slot(p: nat): nat {
    (p + ADDRESS_SPACE - PTR_BYTES) % ADDRESS_SPACE
  }

  lemma SlotBelow(p: nat)
    requires PTR_BYTES <= p < ADDRESS_SPACE
    ensures Slot(p) == p - PTR_BYTES
  {
    ModUnique(p + ADDRESS_SPACE - PTR_BYTES, ADDRESS_SPACE, 1, p - PTR_BYTES);
  }

  /** `_mm_malloc`, given the C library's answer (zero for null). */
  function Malloc(s: State, size: nat, align: nat, answer: nat): (State, nat) {
    if align <= PTR_BYTES then (if answer == 0 then s else s.(raws := s.raws[answer := size]), answer)
    else if size == 0 || answer == 0 then (s, 0)
    else
      var ptr := AlignedPointer(answer, align);
      (State(Store(s.mem, Slot(ptr), answer, PTR_BYTES),
             s.raws[answer := Request(size, align)],
             s.live[ptr := Block(answer, size, align)]), ptr)
  }

  /**
   What `_mm_malloc` returns: null when the library does, or for no bytes at a large alignment; the
   library's own pointer for alignments up to eight; otherwise the first multiple of the alignment
   with eight bytes below it.
   */
  lemma MallocReturns(s: State, size: nat, align: nat, answer: nat)
    requires PowerOfTwo(align) && answer + align + 8 <= ADDRESS_SPACE
    ensures var p := Malloc(s, size, align, answer).1;
            && (p == 0 <==> answer == 0 || (align > 8 && size == 0))
            && (align <= 8 ==> p == answer)
            && (align > 8 && p != 0 ==> p % align == 0 && answer + 8 <= p < answer + 8 + align)
  {
    SmallMod(answer + PTR_BYTES + align - 1, ADDRESS_SPACE);
    RoundDown(answer + PTR_BYTES + align - 1, align);
  }

  /** What `_mm_free` hands to the C library. */
  function PassedOn(s: State, p: nat): nat {
    Load(s.mem, Slot(p), PTR_BYTES)
  }

  /** `_mm_free`. */
  function Free(s: State, p: nat): State {
    if p == 0 then s else State(s.mem, s.raws - {PassedOn(s, p)}, s.live - {p})
  }

  /** A new block with its slot filled in. */
  function Extended(s: State, p: nat, base: nat, n: nat, size: nat, align: nat): State
    requires p >= PTR_BYTES
  {
    State(Store(s.mem, p - PTR_BYTES, base, PTR_BYTES), s.raws[base := n], s.live[p := Block(base, size, align)])
  }

  lemma ExtendedRaws(s: State, base: nat, n: nat)
    requires Inv(s) && FreshBlock(s.raws, base, n)
    ensures RawsApart(s.raws[base := n])
  {
    hide AllLive, OwnBlocks;
  }

  lemma NewBlockLive(s: State, p: nat, base: nat, n: nat, size: nat, align: nat)
    requires base < ADDRESS_SPACE && align > PTR_BYTES && size > 0 && Placed(base, n, p, size, align)
    ensures LiveBlock(Extended(s, p, base, n, size, align), p)
  {
    hide Range, Load, Store;
    EightBytes();
    LoadOfStore(s.mem, p - PTR_BYTES, base, PTR_BYTES);
  }

  lemma OldBlockLive(s: State, q: nat, p: nat, base: nat, n: nat, size: nat, align: nat)
    requires Inv(s) && FreshBlock(s.raws, base, n) && q in s.live && base + PTR_BYTES <= p < base + n
    ensures q != p && s.live[q].raw != base && LiveBlock(Extended(s, p, base, n, size, align), q)
  {
    hide Load, Store, Inv, FreshBlock, Placed;
    OtherSlotKept(s, q, base, n, p);
    LiveOf(s, q);
  }

  lemma ExtendedKeeps(s: State, p: nat, base: nat, n: nat, size: nat, align: nat)
    requires Inv(s) && FreshBlock(s.raws, base, n) && align > PTR_BYTES && size > 0 && Placed(base, n, p, size, align)
    ensures Inv(Extended(s, p, base, n, size, align)) && p !in s.live
  {
    var s' := Extended(s, p, base, n, size, align);
    hide Load, Store, LiveBlock, RawsApart, FreshBlock;
    FreshBounds(s.raws, base, n);
    ExtendedRaws(s, base, n);
    assert base + PTR_BYTES <= p < base + n;
    NewBlockLive(s, p, base, n, size, align);
    forall q | q in s.live
      ensures q != p && LiveBlock(s', q) && s.live[q].raw != base
    {
      OldBlockLive(s, q, p, base, n, size, align);
    }
    hide Placed;
    OwnBlocksExtended(s.live, p, Block(base, size, align));
  }

  lemma OwnBlocksExtended(live: map<nat, Block>, p: nat, b: Block)
    requires OwnBlocks(live) && forall q :: q in live ==> live[q].raw != b.raw
    ensures OwnBlocks(live[p := b])
  {
  }

  /** A successful `_mm_malloc` adds one well-placed block and disturbs no other. */
  lemma MallocKeeps(s: State, size: nat, align: nat, answer: nat)
    requires Inv(s) && PowerOfTwo(align) && PTR_BYTES < align < ADDRESS_SPACE && 0 < size && size + align + PTR_BYTES < ADDRESS_SPACE
    requires FreshBlock(s.raws, answer, Request(size, align))
    ensures var (s', p) := Malloc(s, size, align, answer);
            && Inv(s') && p !in s.live && s'.live == s.live[p := Block(answer, size, align)]
  {
    hide AlignedPointer, Request, Inv, Store, FreshBlock;
    assert answer > 0 && answer + Request(size, align) <= ADDRESS_SPACE by { FreshBounds(s.raws, answer, Request(size, align)); }
    FitsExactly(answer, size, align);
    var p := AlignedPointer(answer, align);
    SlotBelow(p);
    ExtendedKeeps(s, p, answer, Request(size, align), size, align);
  }

  /** Writing a slot inside a fresh block leaves every other block's slot alone. */
  lemma OtherSlotKept(s: State, q: nat, base: nat, n: nat, p: nat)
    requires Inv(s) && q in s.live && FreshBlock(s.raws, base, n) && base + PTR_BYTES <= p && p < base + n
    ensures q != p && s.live[q].raw != base
    ensures Load(Store(s.mem, p - PTR_BYTES, base, PTR_BYTES), q - PTR_BYTES, PTR_BYTES) == s.live[q].raw
  {
    hide Load, Store;
    var b := s.live[q];
    assert LiveBlock(s, q);
    assert Apart(base, n, b.raw, s.raws[b.raw]);
    var mem' := Store(s.mem, p - PTR_BYTES, base, PTR_BYTES);
    forall a: nat | q - PTR_BYTES <= a < q
      ensures Peek(mem', a) == Peek(s.mem, a)
    {
      StoreOutside(s.mem, p - PTR_BYTES, base, PTR_BYTES, a);
    }
    LoadSame(mem', s.mem, q - PTR_BYTES, PTR_BYTES);
  }

  /** Freeing gives the C library exactly the pointer it returned for this block. */
  lemma FreeKeeps(s: State, p: nat)
    requires Inv(s) && p in s.live
    ensures PassedOn(s, p) == s.live[p].raw && s.live[p].raw in s.raws
    ensures Inv(Free(s, p))
    ensures Free(s, p).raws == s.raws - {s.live[p].raw} && Free(s, p).live == s.live - {p}
  {
    hide Load, Slot;
    LiveOf(s, p);
    assert p < ADDRESS_SPACE by { assert s.live[p].raw + s.raws[s.live[p].raw] <= ADDRESS_SPACE; }
    SlotBelow(p);
    var b := s.live[p].raw;
    assert PassedOn(s, p) == b;
    hide PassedOn, LiveBlock, Placed;
    var s' := State(s.mem, s.raws - {b}, s.live - {p});
    WithoutRaw(s.raws, b);
    WithoutBlock(s.live, p);
    forall q | q in s'.live
      ensures LiveBlock(s', q)
    {
      LiveOf(s, q);
      assert s.live[q].raw != b;
      LiveKept(s, s', q);
    }
  }

  lemma WithoutRaw(raws: map<nat, nat>, b: nat)
    requires RawsApart(raws)
    ensures RawsApart(raws - {b})
  {
  }

  lemma WithoutBlock(live: map<nat, Block>, p: nat)
    requires OwnBlocks(live)
    ensures OwnBlocks(live - {p})
  {
  }

  /** A block stays live while its memory, its raw block and its record stay. */
  lemma LiveKept(s: State, s': State, q: nat)
    requires LiveBlock(s, q) && s'.mem == s.mem && q in s'.live && s'.live[q] == s.live[q]
    requires s.live[q].raw in s'.raws && s'.raws[s.live[q].raw] == s.raws[s.live[q].raw]
    ensures LiveBlock(s', q)
  {
    hide Load, Placed;
  }

  /** A client's store into its own payload. */
  function Poke(s: State, a: nat, v: Byte): State {
    s.(mem := s.mem[a := v])
  }

  /** The address belongs to a payload, or to a block of the C library that no aligned pointer uses. */
  predicate Writable(s: State, a: nat) {
    || (exists p :: p in s.live && p <= a < p + s.live[p].size)
    || (exists b :: b in s.raws && b <= a < b + s.raws[b] && forall p :: p in s.live ==> s.live[p].raw != b)
  }

  lemma PokeKeeps(s: State, a: nat, v: Byte)
    requires Inv(s) && Writable(s, a)
    ensures Inv(Poke(s, a, v))
  {
    hide Load;
    var s' := Poke(s, a, v);
    forall q | q in s'.live
      ensures LiveBlock(s', q)
    {
      assert LiveBlock(s, q);
      SlotUntouched(s, a, q);
      forall b: nat | q - PTR_BYTES <= b < q
        ensures Peek(s'.mem, b) == Peek(s.mem, b)
      {
      }
      LoadSame(s'.mem, s.mem, q - PTR_BYTES, PTR_BYTES);
    }
  }

  lemma SlotUntouched(s: State, a: nat, q: nat)
    requires Inv(s) && Writable(s, a) && q in s.live
    ensures !(q - PTR_BYTES <= a < q)
  {
    hide Load;
    var c := s.live[q];
    assert LiveBlock(s, q);
    if p :| p in s.live && p <= a < p + s.live[p].size {
      assert LiveBlock(s, p);
      if p != q { assert Apart(s.live[p].raw, s.raws[s.live[p].raw], c.raw, s.raws[c.raw]); }
    } else {
      var b :| b in s.raws && b <= a < b + s.raws[b] && forall p :: p in s.live ==> s.live[p].raw != b;
      assert Apart(b, s.raws[b], c.raw, s.raws[c.raw]);
    }
  }

  // ---- every interleaving ----

  /** What can happen: the two functions, clients' stores, and other users of the C library's allocator. */
  datatype Event =
    | Alloc(size: nat, align: nat, answer: nat)
    | Release(ptr: nat)
    | Write(address: nat, v: Byte)
    | LibAlloc(n: nat, base: nat)
    | LibFree(base: nat)

  /** The C library answers with fresh blocks, sizes do not wrap, and everybody frees and writes only what is theirs. */
  ghost predicate Allowed(s: State, e: Event) {
    match e
    case Alloc(size, align, answer) =>
      if align <= PTR_BYTES then answer == 0 || FreshBlock(s.raws, answer, size)
      else
        && PowerOfTwo(align) && size + align + PTR_BYTES < ADDRESS_SPACE
        && (answer == 0 || FreshBlock(s.raws, answer, Request(size, align)))
    case Release(ptr) => ptr == 0 || ptr in s.live
    case Write(address, _) => Writable(s, address)
    case LibAlloc(n, base) => FreshBlock(s.raws, base, n)
    case LibFree(base) => base in s.raws && forall p :: p in s.live ==> s.live[p].raw != base
  }

  function Step(s: State, e: Event): State {
    match e
    case Alloc(size, align, answer) => Malloc(s, size, align, answer).0
    case Release(ptr) => Free(s, ptr)
    case Write(address, v) => Poke(s, address, v)
    case LibAlloc(n, base) => s.(raws := s.raws[base := n])
    case LibFree(base) => s.(raws := s.raws - {base})
  }

  function After(events: seq<Event>): State {
    if events == [] then State(map[], map[], map[]) else Step(After(events[..|events| - 1]), events[|events| - 1])
  }

  ghost predicate Run(events: seq<Event>) {
    forall k :: 0 <= k < |events| ==> Allowed(After(events[..k]), events[k])
  }

  lemma NewRawKeeps(s: State, base: nat, n: nat)
    requires Inv(s) && FreshBlock(s.raws, base, n)
    ensures Inv(s.(raws := s.raws[base := n]))
  {
    ExtendedRaws(s, base, n);
    var s' := s.(raws := s.raws[base := n]);
    forall p | p in s'.live
      ensures LiveBlock(s', p)
    {
      hide Load, RawsApart, Placed;
      LiveOf(s, p);
      LiveKept(s, s', p);
    }
    hide LiveBlock, RawsApart, FreshBlock;
  }

  lemma LibFreeKeeps(s: State, base: nat)
    requires Inv(s) && forall p :: p in s.live ==> s.live[p].raw != base
    ensures Inv(s.(raws := s.raws - {base}))
  {
    WithoutRaw(s.raws, base);
    var s' := s.(raws := s.raws - {base});
    forall p | p in s'.live
      ensures LiveBlock(s', p)
    {
      hide Load, RawsApart, Placed;
      LiveOf(s, p);
      LiveKept(s, s', p);
    }
    hide LiveBlock, RawsApart;
  }

  lemma StepKeeps(s: State, e: Event)
    requires Inv(s) && Allowed(s, e)
    ensures Inv(Step(s, e))
  {
    hide Inv, FreshBlock, Writable, Store, Load, Request, AlignedPointer, PowerOfTwo;
    match e
    case Alloc(size, align, answer) =>
      if align <= PTR_BYTES {
        if answer != 0 { NewRawKeeps(s, answer, size); }
      } else if size > 0 && answer != 0 {
        MallocKeeps(s, size, align, answer);
      }
    case Release(ptr) => if ptr != 0 { FreeKeeps(s, ptr); }
    case Write(address, v) => PokeKeeps(s, address, v);
    case LibAlloc(n, base) => NewRawKeeps(s, base, n);
    case LibFree(base) => LibFreeKeeps(s, base);
  }

  /** Safety over every run: the invariant holds after each event. */
  lemma {:induction false} RunsKeep(events: seq<Event>)
    requires Run(events)
    ensures Inv(After(events))
  {
    hide Inv, Step, Allowed;
    if events == [] {
      EmptyInv();
    } else {
      var n := |events| - 1;
      var front := events[..n];
      forall k | 0 <= k < n
        ensures Allowed(After(front[..k]), front[k])
      {
        assert front[..k] == events[..k];
      }
      RunsKeep(front);
      StepKeeps(After(front), events[n]);
    }
  }

  lemma EmptyInv()
    ensures Inv(State(map[], map[], map[]))
  {
  }

  /** What the invariant says of two clients: their pointers are aligned and their slots and payloads apart. */
  lemma ClientsSeparate(events: seq<Event>, p: nat, q: nat)
    requires Run(events) && p in After(events).live && q in After(events).live && p != q
    ensures var s := After(events);
            var b, c := s.live[p], s.live[q];
            && b.align > 0 && p % b.align == 0 && p >= PTR_BYTES && q >= PTR_BYTES
            && Apart(p - PTR_BYTES, b.size + PTR_BYTES, q - PTR_BYTES, c.size + PTR_BYTES)
            && b.raw in s.raws && b.raw <= p - PTR_BYTES && p + b.size <= b.raw + s.raws[b.raw]
  {
    hide After, Load;
    RunsKeep(events);
    var s := After(events);
    LiveOf(s, p);
    LiveOf(s, q);
    assert s.live[p].raw != s.live[q].raw;
    assert Apart(s.live[p].raw, s.raws[s.live[p].raw], s.live[q].raw, s.raws[s.live[q].raw]);
  }

  /** In every run, freeing a held pointer frees the library's own pointer for it, which is still live there. */
  lemma FreesWhatWasObtained(events: seq<Event>, p: nat)
    requires Run(events) && p in After(events).live
    ensures var s := After(events); PassedOn(s, p) == s.live[p].raw && s.live[p].raw in s.raws
  {
    hide After;
    RunsKeep(events);
    FreeKeeps(After(events), p);
  }

  // ---- the functions themselves ----

  class Heap {
    var mem: Memory
    var raws: map<nat, nat>
    ghost var live: map<nat, Block>

    ghost function View(): State
      reads this
    {
      State(mem, raws, live)
    }

    constructor ()
      ensures View() == After([]) && Inv(View())
    {
      mem, raws, live := map[], map[], map[];
      new;
      EmptyInv();
    }

    method MmMalloc(size: nat, align: nat, answer: nat) returns (ptr: nat)
      requires Inv(View()) && Allowed(View(), Alloc(size, align, answer))
      modifies this
      ensures (View(), ptr) == Malloc(old(View()), size, align, answer) && Inv(View())
      ensures ptr != 0 && align > PTR_BYTES ==> ptr in live && live[ptr] == Block(answer, size, align) && ptr % align == 0
    {
      hide Allowed, Inv;
      StepKeeps(View(), Alloc(size, align, answer));
      if align <= PTR_BYTES {
        if answer != 0 {
          raws := raws[answer := size];
        }
        return answer;
      }
      if size == 0 {
        return 0;
      }
      if answer == 0 {
        return 0;
      }
      raws := raws[answer := Request(size, align)];
      ptr := AlignedPointer(answer, align);
      mem := Store(mem, Slot(ptr), answer, PTR_BYTES);
      live := live[ptr := Block(answer, size, align)];
      LiveOf(View(), ptr);
    }

    /** `freed` is what the C library's `free` is called with, zero for no call. */
    method MmFree(ptr: nat) returns (freed: nat)
      requires Inv(View())
      modifies this
      ensures View() == Free(old(View()), ptr)
      ensures freed == if ptr == 0 then 0 else PassedOn(old(View()), ptr)
      ensures old(Allowed(View(), Release(ptr))) ==> Inv(View())
      ensures ptr in old(live) && ptr != 0 ==> freed == old(live)[ptr].raw
    {
      hide Inv, Load, Slot;
      freed := 0;
      if Allowed(View(), Release(ptr)) { StepKeeps(View(), Release(ptr)); }
      if ptr in live { FreeKeeps(View(), ptr); }
      if ptr != 0 {
        freed := Load(mem, Slot(ptr), PTR_BYTES);
        raws := raws - {freed};
        live := live - {ptr};
      }
    }
  }
}
