/**
 Which results of `_mm_malloc` may be given to `_mm_free`, include/xmmintrin.h: the back-pointer
 exists only above the pointer size, so exactly those alignments are freed correctly.
 */
module AlignedFree {
  import opened Bytes
  import opened Arith
  import opened AlignedAlloc

  // ---- continuing a run ----

  function AfterFrom(s: State, more: seq<Event>): State
    decreases |more|
  {
    if more == [] then s else AfterFrom(Step(s, more[0]), more[1..])
  }

  ghost predicate RunFrom(s: State, more: seq<Event>)
    decreases |more|
  {
    more == [] || (Allowed(s, more[0]) && RunFrom(Step(s, more[0]), more[1..]))
  }

  /** A run and its continuation are one run. */
  lemma {:induction false} Continues(events: seq<Event>, more: seq<Event>)
    requires Run(events) && RunFrom(After(events), more)
    ensures Run(events + more) && After(events + more) == AfterFrom(After(events), more)
    decreases |more|
  {
    hide Allowed, Step;
    if more == [] {
      assert events + more == events;
    } else {
      var longer := events + [more[0]];
      assert longer[..|events|] == events;
      forall k | 0 <= k < |longer|
        ensures Allowed(After(longer[..k]), longer[k])
      {
        if k < |events| { assert longer[..k] == events[..k]; }
      }
      Continues(longer, more[1..]);
      assert longer + more[1..] == events + more;
    }
  }

  predicate Releases(more: seq<Event>, p: nat) {
    exists k :: 0 <= k < |more| && more[k] == Release(p)
  }

  // ---- above the pointer size ----

  lemma HeldStep(s: State, e: Event, p: nat)
    requires Inv(s) && Allowed(s, e) && p in s.live && e != Release(p)
    ensures p in Step(s, e).live && Step(s, e).live[p] == s.live[p]
  {
    hide Inv, FreshBlock, Writable, Store, Load, Request, AlignedPointer, PowerOfTwo, Slot;
    match e
    case Alloc(size, align, answer) =>
      if align > PTR_BYTES && size > 0 && answer != 0 { MallocKeeps(s, size, align, answer); }
    case _ =>
  }

  /** A held pointer keeps its block until it is released. */
  lemma {:induction false} HeldStays(s: State, more: seq<Event>, p: nat)
    requires Inv(s) && RunFrom(s, more) && p in s.live && !Releases(more, p)
    ensures Inv(AfterFrom(s, more)) && p in AfterFrom(s, more).live && AfterFrom(s, more).live[p] == s.live[p]
    decreases |more|
  {
    hide Inv, Step, Allowed;
    if more != [] {
      HeldStep(s, more[0], p);
      StepKeeps(s, more[0]);
      var rest := more[1..];
      assert forall k :: 0 <= k < |rest| ==> rest[k] == more[k + 1];
      HeldStays(Step(s, more[0]), rest, p);
    }
  }

  // ---- up to the pointer size ----

  lemma {:induction false} LoadDiffers(mem: Memory, a: nat, v: Byte, w: Byte, base: nat, n: nat)
    requires base <= a < base + n && v != w
    ensures Load(mem[a := v], base, n) != Load(mem[a := w], base, n)
    decreases n
  {
    if a == base {
      LoadSame(mem[a := v], mem[a := w], base + 1, n - 1);
    } else {
      LoadDiffers(mem, a, v, w, base + 1, n - 1);
    }
  }

  /** The block, if any, that an address lies in. */
  predicate Inside(s: State, b: nat, a: nat) {
    b in s.raws && b <= a < b + s.raws[b]
  }

  /** An address in no block can be allocated and written. */
  lemma WriteFresh(s: State, a: nat, v: Byte)
    requires Inv(s) && 0 < a < ADDRESS_SPACE && a !in s.raws && forall b :: !Inside(s, b, a)
    ensures RunFrom(s, [LibAlloc(1, a), Write(a, v)])
    ensures AfterFrom(s, [LibAlloc(1, a), Write(a, v)]).mem == s.mem[a := v]
  {
    hide Load, LiveBlock;
    var s1 := s.(raws := s.raws[a := 1]);
    assert FreshBlock(s.raws, a, 1) by {
      forall b | b in s.raws
        ensures Apart(a, 1, b, s.raws[b])
      {
        assert !Inside(s, b, a);
      }
    }
    assert Step(s, LibAlloc(1, a)) == s1;
    assert Writable(s1, a) by {
      Unowned(s, a);
      assert a in s1.raws && a <= a < a + s1.raws[a];
    }
    hide Inv, Writable, FreshBlock;
    var write := [Write(a, v)];
    assert write[1..] == [];
    assert RunFrom(s1, write) && AfterFrom(s1, write) == Poke(s1, a, v);
    assert [LibAlloc(1, a), Write(a, v)][1..] == write;
  }

  lemma Unowned(s: State, a: nat)
    requires Inv(s) && a !in s.raws
    ensures forall p :: p in s.live ==> s.live[p].raw != a
  {
    hide Load;
    forall p | p in s.live
      ensures s.live[p].raw != a
    {
      LiveOf(s, p);
    }
  }

  /** Any byte of the address space can be given any value without releasing a pointer that is not held. */
  lemma Overwrite(s: State, a: nat, v: Byte) returns (more: seq<Event>)
    requires Inv(s) && 0 < a < ADDRESS_SPACE
    ensures RunFrom(s, more) && AfterFrom(s, more).mem == s.mem[a := v]
    ensures forall k :: 0 <= k < |more| && more[k].Release? ==> more[k].ptr in s.live
  {
    hide Inv, LiveBlock, Load;
    if b :| Inside(s, b, a) {
      if q :| q in s.live && s.live[q].raw == b {
        more := OverwriteOwned(s, a, v, b, q);
      } else {
        assert Writable(s, a);
        more := [Write(a, v)];
      }
    } else if a in s.raws {
      more := OverwriteEmpty(s, a, v);
    } else {
      WriteFresh(s, a, v);
      more := [LibAlloc(1, a), Write(a, v)];
    }
  }

  /** The block belongs to an aligned pointer: release that one first. */
  lemma OverwriteOwned(s: State, a: nat, v: Byte, b: nat, q: nat) returns (more: seq<Event>)
    requires Inv(s) && 0 < a < ADDRESS_SPACE && Inside(s, b, a) && q in s.live && s.live[q].raw == b
    ensures RunFrom(s, more) && AfterFrom(s, more).mem == s.mem[a := v]
    ensures forall k :: 0 <= k < |more| && more[k].Release? ==> more[k].ptr in s.live
  {
    hide Load, LiveBlock;
    FreeKeeps(s, q);
    assert q != 0 by { HeldNotNull(s, q); }
    var s1 := Free(s, q);
    assert forall c :: c in s.raws && c != b ==> Apart(b, s.raws[b], c, s.raws[c]);
    assert a !in s1.raws && forall c :: !Inside(s1, c, a);
    WriteFresh(s1, a, v);
    var rest := [LibAlloc(1, a), Write(a, v)];
    more := [Release(q)] + rest;
    assert more[1..] == rest;
    assert s1.mem == s.mem;
  }

  lemma HeldNotNull(s: State, q: nat)
    requires Inv(s) && q in s.live
    ensures q != 0
  {
    hide Load;
    LiveOf(s, q);
  }

  /** A block of no bytes starts there: free it first. */
  lemma OverwriteEmpty(s: State, a: nat, v: Byte) returns (more: seq<Event>)
    requires Inv(s) && 0 < a < ADDRESS_SPACE && a in s.raws && forall b :: !Inside(s, b, a)
    ensures RunFrom(s, more) && AfterFrom(s, more).mem == s.mem[a := v]
    ensures forall k :: 0 <= k < |more| && more[k].Release? ==> more[k].ptr in s.live
  {
    hide Load;
    assert !Inside(s, a, a);
    forall p | p in s.live
      ensures s.live[p].raw != a
    {
      LiveOf(s, p);
    }
    LibFreeKeeps(s, a);
    hide LiveBlock, Inv;
    var s1 := s.(raws := s.raws - {a});
    forall b
      ensures !Inside(s1, b, a)
    {
      assert !Inside(s, b, a);
    }
    WriteFresh(s1, a, v);
    var rest := [LibAlloc(1, a), Write(a, v)];
    more := [LibFree(a)] + rest;
    assert more[1..] == rest;
  }

  /** A byte of the slot below `p`, inside the address space and not at its very bottom. */
  function SlotByte(p: nat): nat {
    if p >= PTR_BYTES then p - 1 else Slot(p)
  }

  lemma SlotByteIs(p: nat)
    requires 0 < p < ADDRESS_SPACE
    ensures 0 < SlotByte(p) < ADDRESS_SPACE && Slot(p) <= SlotByte(p) < Slot(p) + PTR_BYTES
  {
    if p >= PTR_BYTES {
      SlotBelow(p);
    } else {
      SmallMod(p + ADDRESS_SPACE - PTR_BYTES, ADDRESS_SPACE);
    }
  }

  /** Some continuation makes the bytes below an arbitrary address read as something else. */
  lemma SlotCanChange(s: State, p: nat) returns (more: seq<Event>)
    requires Inv(s) && 0 < p < ADDRESS_SPACE
    ensures RunFrom(s, more) && PassedOn(AfterFrom(s, more), p) != p
    ensures forall k :: 0 <= k < |more| && more[k].Release? ==> more[k].ptr in s.live
  {
    hide Inv, Load, Slot, AfterFrom, RunFrom;
    SlotByteIs(p);
    var a := SlotByte(p);
    LoadDiffers(s.mem, a, 0, 1, Slot(p), PTR_BYTES);
    if Load(s.mem[a := 0], Slot(p), PTR_BYTES) != p {
      more := Overwrite(s, a, 0);
    } else {
      more := Overwrite(s, a, 1);
    }
  }

  lemma FreshNotHeld(s: State, base: nat, n: nat)
    requires Inv(s) && FreshBlock(s.raws, base, n)
    ensures base !in s.live
  {
    hide Load;
    if base in s.live { LiveOf(s, base); }
  }

  // ---- the two together ----

  /** In every continuation that has not released it, freeing `p` frees `raw`. */
  ghost predicate PassedBack(s: State, p: nat, raw: nat) {
    forall more: seq<Event> :: RunFrom(s, more) && !Releases(more, p) ==> PassedOn(AfterFrom(s, more), p) == raw
  }

  /** A pointer returned in any run is passed back correctly in every continuation if and only if its alignment exceeds the pointer size. */
  lemma PassedBackExactly(events: seq<Event>, size: nat, align: nat, answer: nat)
    requires Run(events) && Allowed(After(events), Alloc(size, align, answer))
    requires Malloc(After(events), size, align, answer).1 != 0
    ensures var (s, p) := Malloc(After(events), size, align, answer);
            PassedBack(s, p, answer) <==> align > PTR_BYTES
  {
    hide After, Inv;
    RunsKeep(events);
    var s0 := After(events);
    StepKeeps(s0, Alloc(size, align, answer));
    if align > PTR_BYTES {
      LargePassedBack(s0, size, align, answer);
    } else {
      SmallNotPassedBack(s0, size, align, answer);
    }
  }

  lemma LargePassedBack(s0: State, size: nat, align: nat, answer: nat)
    requires Inv(s0) && Allowed(s0, Alloc(size, align, answer)) && align > PTR_BYTES && Malloc(s0, size, align, answer).1 != 0
    ensures var (s, p) := Malloc(s0, size, align, answer); PassedBack(s, p, answer)
  {
    hide Inv, FreshBlock, PowerOfTwo, Request, AlignedPointer, Store, Slot, Load;
    MallocKeeps(s0, size, align, answer);
    var (s, p) := Malloc(s0, size, align, answer);
    forall more: seq<Event> | RunFrom(s, more) && !Releases(more, p)
      ensures PassedOn(AfterFrom(s, more), p) == answer
    {
      HeldStays(s, more, p);
      FreeKeeps(AfterFrom(s, more), p);
    }
  }

  lemma SmallNotPassedBack(s0: State, size: nat, align: nat, answer: nat)
    requires Inv(s0) && Allowed(s0, Alloc(size, align, answer)) && align <= PTR_BYTES && Malloc(s0, size, align, answer).1 != 0
    ensures var (s, p) := Malloc(s0, size, align, answer); !PassedBack(s, p, answer)
  {
    hide Inv, Load, Slot, RunFrom, AfterFrom;
    var (s, p) := Malloc(s0, size, align, answer);
    StepKeeps(s0, Alloc(size, align, answer));
    FreshBounds(s0.raws, answer, size);
    FreshNotHeld(s0, answer, size);
    var more := SlotCanChange(s, p);
    assert !Releases(more, p) && PassedOn(AfterFrom(s, more), p) != answer;
  }

  /** The first allocation of a program, at a small alignment, and what freeing it would free. */
  lemma SmallAlignmentFreesNull()
    ensures Run([Alloc(1, 8, 16)]) && Malloc(After([]), 1, 8, 16).1 == 16
    ensures PassedOn(After([Alloc(1, 8, 16)]), 16) == 0
  {
    var events := [Alloc(1, 8, 16)];
    assert events[..0] == [];
    SlotBelow(16);
    LoadEmpty(8, 8);
  }

  lemma {:induction false} LoadEmpty(a: nat, n: nat)
    ensures Load(map[], a, n) == 0
    decreases n
  {
    if n > 0 { LoadEmpty(a + 1, n - 1); }
  }
}
