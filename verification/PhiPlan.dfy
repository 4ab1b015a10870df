/**
 Planning the parallel copies of one control-flow edge, src/ir/mem2reg/phi_eliminate.rs: the
 cycle-accurate planner and the historical one, and what the emitter needs of either.
 */
module PhiPlan {
  import opened Options
  import opened PhiGraph
  import opened PhiRounds

  // ---- the cycle-accurate planner ----

  ghost predicate WriterMap(copies: seq<EdgeCopy>, writer: map<nat, nat>) {
    forall v: nat :: WriterOf(copies, v) == if v in writer then Some(writer[v]) else None
  }

  method BuildWriters(copies: seq<EdgeCopy>) returns (writer: map<nat, nat>)
    ensures WriterMap(copies, writer)
  {
    writer := map[];
    for i := 0 to |copies|
      invariant WriterMap(copies[..i], writer)
    {
      assert copies[..i + 1][..i] == copies[..i];
      if copies[i].dest !in writer {
        writer := writer[copies[i].dest := i];
      }
    }
    assert copies[..|copies|] == copies;
  }

  ghost predicate PredsUpTo(copies: seq<EdgeCopy>, preds: seq<seq<nat>>, n: nat) {
    && |preds| == |copies|
    && forall j, p: nat :: 0 <= j < |copies| ==> (p in preds[j] <==> p < n && Before(copies, p, j))
  }

  method BuildPreds(copies: seq<EdgeCopy>) returns (preds: seq<seq<nat>>, skippable: seq<bool>)
    ensures Tables(copies, preds, skippable)
  {
    var writer := BuildWriters(copies);
    preds := seq(|copies|, _ => []);
    skippable := seq(|copies|, _ => false);
    for i := 0 to |copies|
      invariant PredsUpTo(copies, preds, i)
      invariant |skippable| == |copies|
      invariant forall k :: 0 <= k < i ==> (skippable[k] <==> Skips(copies[k]))
      invariant forall k :: i <= k < |copies| ==> !skippable[k]
    {
      var c := copies[i];
      assert c.src.Some? ==> WriterOf(copies, c.src.value) == if c.src.value in writer then Some(writer[c.src.value]) else None;
      if c.src.None? {
        assert forall j: nat :: !Before(copies, i, j);
      } else if c.src.value == c.dest {
        skippable := skippable[i := true];
        assert forall j: nat :: !Before(copies, i, j);
      } else if c.src.value in writer && writer[c.src.value] != i {
        var j := writer[c.src.value];
        preds := preds[j := preds[j] + [i]];
        assert forall k: nat :: Before(copies, i, k) <==> k == j;
      } else {
        assert forall j: nat :: !Before(copies, i, j);
      }
    }
  }

  /** The planner's working state: what is emitted, and what is still to come. */
  ghost predicate Working(copies: seq<EdgeCopy>, ordered: seq<nat>, emitted: seq<bool>) {
    && Sound(copies, ordered)
    && |emitted| == |copies|
    && (forall i: nat :: i < |copies| ==> (emitted[i] <==> i in ordered))
  }

  predicate Ready(pred: seq<nat>, emitted: seq<bool>, skippable: seq<bool>)
    requires |emitted| == |skippable| && forall k :: 0 <= k < |pred| ==> pred[k] < |emitted|
  {
    forall k :: 0 <= k < |pred| ==> emitted[pred[k]] || skippable[pred[k]]
  }

  /** A ready copy waits while a pending computation still reads its destination. */
  predicate Deferred(copies: seq<EdgeCopy>, guards: seq<set<nat>>, remaining: seq<nat>, emitted: seq<bool>, i: nat)
    requires i < |copies| == |guards| == |emitted| && forall k :: 0 <= k < |remaining| ==> remaining[k] < |copies|
  {
    exists k :: 0 <= k < |remaining| && remaining[k] != i && !emitted[remaining[k]] && copies[i].dest in guards[remaining[k]]
  }

  ghost predicate Clear(copies: seq<EdgeCopy>, ordered: seq<nat>, i: nat) {
    i < |copies| && !Skips(copies[i]) && i !in ordered && forall p: nat :: Before(copies, p, i) ==> p in ordered
  }

  lemma EmitKeeps(copies: seq<EdgeCopy>, ordered: seq<nat>, emitted: seq<bool>, i: nat)
    requires Working(copies, ordered, emitted) && Clear(copies, ordered, i)
    ensures Working(copies, ordered + [i], emitted[i := true])
  {
    hide Before;
    var more := ordered + [i];
    forall a, p | 0 <= a < |more| && Before(copies, p, more[a])
      ensures p in more[..a]
    {
      if a < |ordered| {
        assert more[..a] == ordered[..a];
      } else {
        assert more[..a] == ordered;
      }
    }
  }

  /** What the code tests is what makes a copy safe to emit. */
  lemma ReadyIsClear(copies: seq<EdgeCopy>, preds: seq<seq<nat>>, skippable: seq<bool>, ordered: seq<nat>, emitted: seq<bool>, i: nat)
    requires PredsUpTo(copies, preds, |copies|) && Working(copies, ordered, emitted) && i < |copies|
    requires |skippable| == |copies| && forall k :: 0 <= k < |copies| ==> (skippable[k] <==> Skips(copies[k]))
    ensures forall k :: 0 <= k < |preds[i]| ==> preds[i][k] < |copies|
    ensures Ready(preds[i], emitted, skippable) <==> forall p: nat :: Before(copies, p, i) ==> p in ordered
  {
    forall k | 0 <= k < |preds[i]|
      ensures preds[i][k] < |copies| && Before(copies, preds[i][k], i) && !Skips(copies[preds[i][k]])
    {
      assert preds[i][k] in preds[i];
    }
    if Ready(preds[i], emitted, skippable) {
      forall p: nat | Before(copies, p, i)
        ensures p in ordered
      {
        assert p in preds[i];
        var k :| 0 <= k < |preds[i]| && preds[i][k] == p;
      }
    }
  }

  /** The list holds, once each, the copies still to be emitted. */
  ghost predicate Pending(copies: seq<EdgeCopy>, remaining: seq<nat>, emitted: seq<bool>)
    requires |emitted| == |copies|
  {
    && Ascending(remaining)
    && (forall k :: 0 <= k < |remaining| ==> remaining[k] < |copies|)
    && (forall i: nat :: i < |copies| ==> (i in remaining <==> !Skips(copies[i]) && !emitted[i]))
  }

  lemma PendingEmit(copies: seq<EdgeCopy>, a: seq<nat>, x: nat, b: seq<nat>, emitted: seq<bool>)
    requires |emitted| == |copies| && Pending(copies, a + ([x] + b), emitted)
    ensures x < |copies| && !emitted[x] && !Skips(copies[x])
    ensures Pending(copies, a + b, emitted[x := true])
  {
    var all, rest, e := a + ([x] + b), a + b, emitted[x := true];
    AscendingAround(a, x, b);
    hide Ascending;
    assert all[|a|] == x && x in all;
    assert forall k :: 0 <= k < |rest| ==> rest[k] == all[Skip(k, |a|)] && rest[k] != x;
    forall i: nat | i < |copies|
      ensures i in rest <==> !Skips(copies[i]) && !e[i]
    {
      if i in all && i != x {
        var k :| 0 <= k < |all| && all[k] == i;
        assert rest[if k < |a| then k else k - 1] == i;
      }
      if i in rest {
        var k :| 0 <= k < |rest| && rest[k] == i;
        assert all[Skip(k, |a|)] == i;
      }
    }
  }

  function Skip(k: nat, gap: nat): nat {
    if k < gap then k else k + 1
  }

  ghost predicate Tables(copies: seq<EdgeCopy>, preds: seq<seq<nat>>, skippable: seq<bool>) {
    && PredsUpTo(copies, preds, |copies|)
    && |skippable| == |copies|
    && (forall k :: 0 <= k < |copies| ==> (skippable[k] <==> Skips(copies[k])))
  }

  ghost predicate CanRun(copies: seq<EdgeCopy>, ordered: seq<nat>, i: nat) {
    forall p: nat :: Before(copies, p, i) ==> p in ordered
  }

  /** One pass over what is left, with guard deferral; `rd` and `r` follow the rounds. */
  method FirstScan(copies: seq<EdgeCopy>, guards: seq<set<nat>>, preds: seq<seq<nat>>, skippable: seq<bool>,
                   remaining: seq<nat>, ordered0: seq<nat>, emitted0: seq<bool>, ghost rd0: seq<nat>, ghost r: nat)
    returns (ordered: seq<nat>, emitted: seq<bool>, blocked: seq<nat>, progressed: bool, ghost rd: seq<nat>)
    requires Tables(copies, preds, skippable) && |guards| == |copies| == |emitted0| == |rd0|
    requires Working(copies, ordered0, emitted0) && Pending(copies, remaining, emitted0)
    ensures |emitted| == |copies| == |rd| && Working(copies, ordered, emitted) && Pending(copies, blocked, emitted)
    ensures if progressed then |blocked| < |remaining| else ordered == ordered0 && emitted == emitted0 && blocked == remaining && rd == rd0
    ensures Scanning(copies, guards, ordered0, rd0, r, [], remaining) ==> Scanning(copies, guards, ordered, rd, r, blocked, [])
    ensures !progressed ==> forall k :: 0 <= k < |remaining| ==> Held(copies, guards, ordered, remaining[k])
  {
    hide Working, Pending, Tables, Ready, Deferred, Scanning, Held, FirstPass;
    ghost var calm := Scanning(copies, guards, ordered0, rd0, r, [], remaining);
    FirstPassStarts(copies, guards, remaining, ordered0, emitted0, rd0, r, calm);
    ordered, emitted, blocked, progressed, rd := ordered0, emitted0, [], false, rd0;
    assert remaining[0..] == remaining;
    for t := 0 to |remaining|
      invariant |emitted| == |copies| == |rd|
      invariant FirstPass(copies, guards, remaining, ordered, emitted, blocked, remaining[t..], rd, r, calm)
      invariant if progressed then |blocked| < t else ordered == ordered0 && emitted == emitted0 && blocked == remaining[..t] && rd == rd0
      invariant !progressed ==> forall k :: 0 <= k < t ==> Held(copies, guards, ordered, remaining[k])
    {
      var i := remaining[t];
      assert remaining[t..] == [i] + remaining[t + 1..];
      FirstStep(copies, guards, preds, skippable, remaining, ordered, emitted, blocked, i, remaining[t + 1..], rd, r, calm);
      var ready := Ready(preds[i], emitted, skippable);
      var deferred := ready && Deferred(copies, guards, remaining, emitted, i);
      if ready && !deferred {
        ordered := ordered + [i];
        emitted := emitted[i := true];
        rd := rd[i := r];
        progressed := true;
      } else {
        blocked := blocked + [i];
      }
    }
    assert remaining[|remaining|..] == [];
    FirstPassEnds(copies, guards, remaining, ordered, emitted, blocked, rd, r, calm);
  }

  /** The pass over `remaining`: `blocked` was held back, `rest` is to come. */
  ghost predicate FirstPass(copies: seq<EdgeCopy>, guards: seq<set<nat>>, remaining: seq<nat>, ordered: seq<nat>, emitted: seq<bool>,
                            blocked: seq<nat>, rest: seq<nat>, rd: seq<nat>, r: nat, calm: bool)
    requires |emitted| == |copies|
  {
    && Working(copies, ordered, emitted)
    && Pending(copies, blocked + rest, emitted)
    && Listed(copies, remaining, emitted)
    && (calm ==> Scanning(copies, guards, ordered, rd, r, blocked, rest))
  }

  lemma FirstPassStarts(copies: seq<EdgeCopy>, guards: seq<set<nat>>, remaining: seq<nat>, ordered: seq<nat>, emitted: seq<bool>, rd: seq<nat>, r: nat, calm: bool)
    requires |emitted| == |copies| && Working(copies, ordered, emitted) && Pending(copies, remaining, emitted)
    requires calm ==> Scanning(copies, guards, ordered, rd, r, [], remaining)
    ensures FirstPass(copies, guards, remaining, ordered, emitted, [], remaining, rd, r, calm)
  {
    hide Working, Pending, Scanning;
    PendingListed(copies, remaining, emitted);
    assert [] + remaining == remaining;
  }

  lemma FirstPassEnds(copies: seq<EdgeCopy>, guards: seq<set<nat>>, remaining: seq<nat>, ordered: seq<nat>, emitted: seq<bool>, blocked: seq<nat>, rd: seq<nat>, r: nat, calm: bool)
    requires |emitted| == |copies| && FirstPass(copies, guards, remaining, ordered, emitted, blocked, [], rd, r, calm)
    ensures Working(copies, ordered, emitted) && Pending(copies, blocked, emitted)
    ensures calm ==> Scanning(copies, guards, ordered, rd, r, blocked, [])
  {
    assert blocked + [] == blocked;
  }

  /** One copy of the pass, either way. */
  lemma FirstStep(copies: seq<EdgeCopy>, guards: seq<set<nat>>, preds: seq<seq<nat>>, skippable: seq<bool>, remaining: seq<nat>,
                  ordered: seq<nat>, emitted: seq<bool>, blocked: seq<nat>, i: nat, rest: seq<nat>, rd: seq<nat>, r: nat, calm: bool)
    requires Tables(copies, preds, skippable) && |guards| == |copies| == |emitted| == |rd|
    requires FirstPass(copies, guards, remaining, ordered, emitted, blocked, [i] + rest, rd, r, calm)
    ensures i < |copies| == |preds| == |skippable| && (forall k :: 0 <= k < |preds[i]| ==> preds[i][k] < |copies|)
    ensures forall k :: 0 <= k < |remaining| ==> remaining[k] < |copies|
    ensures if Ready(preds[i], emitted, skippable) && !Deferred(copies, guards, remaining, emitted, i)
            then FirstPass(copies, guards, remaining, ordered + [i], emitted[i := true], blocked, rest, rd[i := r], r, calm)
            else FirstPass(copies, guards, remaining, ordered, emitted, blocked + [i], rest, rd, r, calm) && Held(copies, guards, ordered, i)
  {
    hide Sound, Working, Pending, Tables, Ready, Deferred, CanRun, Scanning, Held;
    ScanFacts(copies, preds, skippable, ordered, emitted, blocked, i, rest);
    UndeferredIsFree(copies, guards, remaining, ordered, emitted, i);
    if Ready(preds[i], emitted, skippable) && !Deferred(copies, guards, remaining, emitted, i) {
      if calm { ScanEmit(copies, guards, ordered, rd, r, blocked, i, rest); }
      ListedEmit(copies, remaining, emitted, i);
    } else {
      if calm { ScanHold(copies, guards, ordered, rd, r, blocked, i, rest); }
      assert blocked + ([i] + rest) == (blocked + [i]) + rest;
    }
  }

  /** Something that must precede the copy is still to come. */
  ghost predicate Held(copies: seq<EdgeCopy>, guards: seq<set<nat>>, ordered: seq<nat>, i: nat) {
    |guards| == |copies| && exists p: nat :: Dep(copies, guards, p, i) && p !in ordered
  }

  lemma ScanHold(copies: seq<EdgeCopy>, guards: seq<set<nat>>, ordered: seq<nat>, rd: seq<nat>, r: nat, blocked: seq<nat>, i: nat, rest: seq<nat>)
    requires Scanning(copies, guards, ordered, rd, r, blocked, [i] + rest) && Held(copies, guards, ordered, i)
    ensures Scanning(copies, guards, ordered, rd, r, blocked + [i], rest)
  {
    hide Scanning;
    var p: nat :| Dep(copies, guards, p, i) && p !in ordered;
    ScanBlock(copies, guards, ordered, rd, r, blocked, i, rest, p);
  }

  /** All unemitted copies are in the list, and the list has no others but emitted ones. */
  ghost predicate Listed(copies: seq<EdgeCopy>, remaining: seq<nat>, emitted: seq<bool>)
    requires |emitted| == |copies|
  {
    && (forall i: nat :: i < |copies| && !Skips(copies[i]) && !emitted[i] ==> i in remaining)
    && (forall k :: 0 <= k < |remaining| ==> remaining[k] < |copies| && !Skips(copies[remaining[k]]))
  }

  lemma PendingListed(copies: seq<EdgeCopy>, remaining: seq<nat>, emitted: seq<bool>)
    requires |emitted| == |copies| && Pending(copies, remaining, emitted)
    ensures Listed(copies, remaining, emitted)
  {
    assert forall k :: 0 <= k < |remaining| ==> remaining[k] in remaining;
  }

  lemma ListedEmit(copies: seq<EdgeCopy>, remaining: seq<nat>, emitted: seq<bool>, i: nat)
    requires i < |copies| == |emitted| && Listed(copies, remaining, emitted)
    ensures Listed(copies, remaining, emitted[i := true])
  {
  }

  /** Passing both tests means that nothing that must precede the copy is still to come. */
  lemma UndeferredIsFree(copies: seq<EdgeCopy>, guards: seq<set<nat>>, remaining: seq<nat>, ordered: seq<nat>, emitted: seq<bool>, i: nat)
    requires i < |copies| == |guards| == |emitted|
    requires (forall k :: 0 <= k < |remaining| ==> remaining[k] < |copies|)
    requires Working(copies, ordered, emitted) && Listed(copies, remaining, emitted)
    ensures CanRun(copies, ordered, i) && !Deferred(copies, guards, remaining, emitted, i) ==>
              forall p: nat :: Dep(copies, guards, p, i) ==> p in ordered
    ensures !CanRun(copies, ordered, i) || Deferred(copies, guards, remaining, emitted, i) ==> Held(copies, guards, ordered, i)
  {
    hide Sound;
    if !CanRun(copies, ordered, i) {
      var p: nat :| Before(copies, p, i) && p !in ordered;
      assert Dep(copies, guards, p, i);
    } else if Deferred(copies, guards, remaining, emitted, i) {
      var k :| 0 <= k < |remaining| && remaining[k] != i && !emitted[remaining[k]] && copies[i].dest in guards[remaining[k]];
      assert Guards(copies, guards, remaining[k], i);
      assert Dep(copies, guards, remaining[k], i);
    }
  }

  // ---- why deferral does not starve ----

  lemma FreeOffCycle(copies: seq<EdgeCopy>, ordered: seq<nat>, i: nat)
    requires Sound(copies, ordered) && i < |copies| && i !in ordered && CanRun(copies, ordered, i)
    ensures !OnCycle(copies, i)
  {
    if OnCycle(copies, i) {
      var p := CyclePredecessor(copies, i);
      CycleNotOrdered(copies, ordered, p);
      assert false;
    }
  }

  /** In a settled graph nothing off the cycles can be held back for good. */
  lemma {:induction false} SettledRuns(copies: seq<EdgeCopy>, guards: seq<set<nat>>, remaining: seq<nat>, ordered: seq<nat>, rank: seq<nat>, i: nat)
    requires |guards| == |copies| && SettledBy(copies, guards, rank)
    requires forall k: nat :: k < |copies| && !Skips(copies[k]) ==> k in remaining || k in ordered
    requires forall k :: 0 <= k < |remaining| ==> Held(copies, guards, ordered, remaining[k]) && remaining[k] < |copies| && !Skips(copies[remaining[k]])
    requires i in remaining && !OnCycle(copies, i)
    ensures false
    decreases rank[i]
  {
    hide OnCycle;
    var t :| 0 <= t < |remaining| && remaining[t] == i;
    var p: nat :| Dep(copies, guards, p, i) && p !in ordered;
    DepReads(copies, guards, p, i);
    SettledRuns(copies, guards, remaining, ordered, rank, p);
  }

  /** When precedences and guards can be met together, a pass with deferral that emits nothing leaves only cycles. */
  lemma NeverStarves(copies: seq<EdgeCopy>, guards: seq<set<nat>>, remaining: seq<nat>, ordered: seq<nat>, emitted: seq<bool>)
    requires |guards| == |copies| == |emitted| && Calm(copies, guards)
    requires Working(copies, ordered, emitted) && Pending(copies, remaining, emitted)
    requires forall k :: 0 <= k < |remaining| ==> Held(copies, guards, ordered, remaining[k])
    ensures NoneRuns(copies, ordered, remaining)
  {
    PendingListed(copies, remaining, emitted);
    forall k | 0 <= k < |remaining|
      ensures !CanRun(copies, ordered, remaining[k])
    {
      StillHeld(copies, guards, remaining, ordered, emitted, remaining[k]);
    }
  }

  lemma HeldWithoutGuards(copies: seq<EdgeCopy>, guards: seq<set<nat>>, ordered: seq<nat>, i: nat)
    requires NoGuards(guards) && Held(copies, guards, ordered, i)
    ensures !CanRun(copies, ordered, i)
  {
    hide Before;
    var p: nat :| Dep(copies, guards, p, i) && p !in ordered;
    assert Before(copies, p, i);
  }

  lemma StillHeld(copies: seq<EdgeCopy>, guards: seq<set<nat>>, remaining: seq<nat>, ordered: seq<nat>, emitted: seq<bool>, i: nat)
    requires |guards| == |copies| == |emitted| && Calm(copies, guards)
    requires Working(copies, ordered, emitted) && Listed(copies, remaining, emitted) && i in remaining
    requires forall k :: 0 <= k < |remaining| ==> Held(copies, guards, ordered, remaining[k]) && !emitted[remaining[k]]
    ensures !CanRun(copies, ordered, i)
  {
    hide OnCycle, Before;
    if CanRun(copies, ordered, i) {
      if NoGuards(guards) {
        HeldWithoutGuards(copies, guards, ordered, i);
      } else {
        FreeOffCycle(copies, ordered, i);
        var rank :| SettledBy(copies, guards, rank);
        SettledRuns(copies, guards, remaining, ordered, rank, i);
      }
    }
  }

  /** When a pass emitted nothing: emit whatever can run, deferred or not. */
  method SecondScan(copies: seq<EdgeCopy>, preds: seq<seq<nat>>, skippable: seq<bool>, blocked: seq<nat>,
                    ordered0: seq<nat>, emitted0: seq<bool>)
    returns (ordered: seq<nat>, emitted: seq<bool>, ghost left: seq<nat>, progressed: bool)
    requires Tables(copies, preds, skippable) && |emitted0| == |copies|
    requires Working(copies, ordered0, emitted0) && Pending(copies, blocked, emitted0)
    ensures |emitted| == |copies| && Working(copies, ordered, emitted) && Pending(copies, left, emitted)
    ensures left == Unemitted(blocked, emitted)
    ensures NoneRuns(copies, ordered0, blocked) ==> !progressed
    ensures if progressed then |left| < |blocked|
            else ordered == ordered0 && emitted == emitted0 && NoneRuns(copies, ordered, blocked)
  {
    hide Working, Pending, Tables, Ready, CanRun, Unemitted, SecondPass;
    PendingIndices(copies, blocked, emitted0);
    SecondPassStarts(copies, blocked, ordered0, emitted0);
    ordered, emitted, left, progressed := ordered0, emitted0, [], false;
    for t := 0 to |blocked|
      invariant |emitted| == |copies| && SecondPass(copies, blocked, t, ordered, emitted, left)
      invariant NoneRuns(copies, ordered0, blocked) ==> !progressed
      invariant if progressed then |left| < t
                else ordered == ordered0 && emitted == emitted0 && |left| <= t && forall k :: 0 <= k < t ==> !CanRun(copies, ordered, blocked[k])
    {
      var i := blocked[t];
      SecondStep(copies, preds, skippable, blocked, t, ordered, emitted, left);
      if Ready(preds[i], emitted, skippable) {
        ordered := ordered + [i];
        emitted := emitted[i := true];
        progressed := true;
      } else {
        left := left + [i];
      }
    }
    SecondPassEnds(copies, blocked, ordered, emitted, left);
  }

  /** The pass without deferral has looked at the first `t` of `blocked` and left `left` of them. */
  ghost predicate SecondPass(copies: seq<EdgeCopy>, blocked: seq<nat>, t: nat, ordered: seq<nat>, emitted: seq<bool>, left: seq<nat>)
    requires |emitted| == |copies| && t <= |blocked|
  {
    && Ascending(blocked) && (forall k :: 0 <= k < |blocked| ==> blocked[k] < |emitted|)
    && Working(copies, ordered, emitted)
    && Pending(copies, left + blocked[t..], emitted)
    && left == Unemitted(blocked[..t], emitted)
  }

  lemma SecondPassStarts(copies: seq<EdgeCopy>, blocked: seq<nat>, ordered: seq<nat>, emitted: seq<bool>)
    requires |emitted| == |copies| && Working(copies, ordered, emitted) && Pending(copies, blocked, emitted)
    ensures SecondPass(copies, blocked, 0, ordered, emitted, [])
  {
    assert [] + blocked[0..] == blocked && blocked[..0] == [];
  }

  lemma SecondPassEnds(copies: seq<EdgeCopy>, blocked: seq<nat>, ordered: seq<nat>, emitted: seq<bool>, left: seq<nat>)
    requires |emitted| == |copies| && SecondPass(copies, blocked, |blocked|, ordered, emitted, left)
    ensures Working(copies, ordered, emitted) && Pending(copies, left, emitted)
    ensures (forall k :: 0 <= k < |blocked| ==> blocked[k] < |emitted|) && left == Unemitted(blocked, emitted)
  {
    assert left + blocked[|blocked|..] == left && blocked[..|blocked|] == blocked;
  }

  lemma SecondStep(copies: seq<EdgeCopy>, preds: seq<seq<nat>>, skippable: seq<bool>, blocked: seq<nat>, t: nat,
                   ordered: seq<nat>, emitted: seq<bool>, left: seq<nat>)
    requires Tables(copies, preds, skippable) && |emitted| == |copies| && t < |blocked|
    requires SecondPass(copies, blocked, t, ordered, emitted, left)
    ensures blocked[t] < |copies| == |preds| == |skippable| && (forall k :: 0 <= k < |preds[blocked[t]]| ==> preds[blocked[t]][k] < |copies|)
    ensures Ready(preds[blocked[t]], emitted, skippable) <==> CanRun(copies, ordered, blocked[t])
    ensures if Ready(preds[blocked[t]], emitted, skippable)
            then SecondPass(copies, blocked, t + 1, ordered + [blocked[t]], emitted[blocked[t] := true], left)
            else SecondPass(copies, blocked, t + 1, ordered, emitted, left + [blocked[t]])
  {
    hide Working, Pending, Tables, Ready, CanRun, Unemitted;
    var i, rest := blocked[t], blocked[t + 1..];
    assert blocked[t..] == [i] + rest;
    assert blocked[..t + 1] == blocked[..t] + [i];
    ScanFacts(copies, preds, skippable, ordered, emitted, left, i, rest);
    if Ready(preds[i], emitted, skippable) {
      AscendingEarlier(blocked, t);
      UnemittedOther(blocked[..t], emitted, i);
      UnemittedPush(blocked[..t], i, emitted[i := true]);
    } else {
      UnemittedPush(blocked[..t], i, emitted);
      assert left + ([i] + rest) == (left + [i]) + rest;
    }
  }

  lemma AscendingEarlier(s: seq<nat>, t: nat)
    requires Ascending(s) && t < |s|
    ensures s[t] !in s[..t]
  {
    assert forall k :: 0 <= k < t ==> s[..t][k] == s[k];
  }

  /** Emitting a copy that is not in the list changes nothing there. */
  lemma {:induction false} UnemittedOther(blocked: seq<nat>, emitted: seq<bool>, i: nat)
    requires (forall k :: 0 <= k < |blocked| ==> blocked[k] < |emitted|) && i < |emitted| && i !in blocked
    ensures Unemitted(blocked, emitted[i := true]) == Unemitted(blocked, emitted)
  {
    if blocked != [] {
      UnemittedOther(blocked[..|blocked| - 1], emitted, i);
    }
  }

  /** `blocked` without what has been emitted since. */
  function Unemitted(blocked: seq<nat>, emitted: seq<bool>): (left: seq<nat>)
    requires forall k :: 0 <= k < |blocked| ==> blocked[k] < |emitted|
  {
    if blocked == [] then []
    else
      var n := |blocked| - 1;
      Unemitted(blocked[..n], emitted) + if emitted[blocked[n]] then [] else [blocked[n]]
  }

  lemma UnemittedPush(blocked: seq<nat>, i: nat, emitted: seq<bool>)
    requires (forall k :: 0 <= k < |blocked| ==> blocked[k] < |emitted|) && i < |emitted|
    ensures Unemitted(blocked + [i], emitted) == Unemitted(blocked, emitted) + if emitted[i] then [] else [i]
  {
    assert (blocked + [i])[..|blocked|] == blocked;
  }

  lemma {:induction false} UnemittedMember(blocked: seq<nat>, emitted: seq<bool>, i: nat)
    requires forall k :: 0 <= k < |blocked| ==> blocked[k] < |emitted|
    ensures i in Unemitted(blocked, emitted) <==> i in blocked && !emitted[i]
  {
    if blocked != [] {
      var n := |blocked| - 1;
      UnemittedMember(blocked[..n], emitted, i);
      assert blocked == blocked[..n] + [blocked[n]];
    }
  }

  lemma PendingIndices(copies: seq<EdgeCopy>, remaining: seq<nat>, emitted: seq<bool>)
    requires |emitted| == |copies| && Pending(copies, remaining, emitted)
    ensures forall k :: 0 <= k < |remaining| ==> remaining[k] < |copies|
  {
  }

  /** Everything a scan needs to know about the copy it looks at. */
  lemma ScanFacts(copies: seq<EdgeCopy>, preds: seq<seq<nat>>, skippable: seq<bool>, ordered: seq<nat>, emitted: seq<bool>,
                  before: seq<nat>, i: nat, after: seq<nat>)
    requires Tables(copies, preds, skippable) && Working(copies, ordered, emitted)
    requires |emitted| == |copies| && Pending(copies, before + ([i] + after), emitted)
    ensures i < |copies| == |preds| == |skippable| && !emitted[i] && i !in ordered && forall k :: 0 <= k < |preds[i]| ==> preds[i][k] < |copies|
    ensures Ready(preds[i], emitted, skippable) <==> CanRun(copies, ordered, i)
    ensures Ready(preds[i], emitted, skippable) ==>
              Working(copies, ordered + [i], emitted[i := true]) && Pending(copies, before + after, emitted[i := true])
  {
    hide Before, Pending, Skips;
    PendingEmit(copies, before, i, after, emitted);
    ReadyIsClear(copies, preds, skippable, ordered, emitted, i);
    if Ready(preds[i], emitted, skippable) {
      assert Clear(copies, ordered, i);
      EmitKeeps(copies, ordered, emitted, i);
    }
  }

  lemma {:induction false} UnemittedAll(blocked: seq<nat>, emitted: seq<bool>)
    requires forall k :: 0 <= k < |blocked| ==> blocked[k] < |emitted| && !emitted[blocked[k]]
    ensures Unemitted(blocked, emitted) == blocked
  {
    if blocked != [] {
      var n := |blocked| - 1;
      UnemittedAll(blocked[..n], emitted);
      assert blocked == blocked[..n] + [blocked[n]];
    }
  }

  /** Nothing left can run: each is blocked by another one left. */
  lemma NothingRunsIsStuck(copies: seq<EdgeCopy>, ordered: seq<nat>, emitted: seq<bool>, remaining: seq<nat>)
    requires |emitted| == |copies| && Working(copies, ordered, emitted) && Pending(copies, remaining, emitted)
    requires NoneRuns(copies, ordered, remaining)
    ensures Stuck(copies, set i | i in remaining)
  {
    var r := set i | i in remaining;
    forall i: nat | i in r
      ensures Blocked(copies, r, i)
    {
      var p: nat :| Before(copies, p, i) && p !in ordered;
      assert !Skips(copies[p]) && !emitted[p];
      assert p in r;
    }
  }

  lemma PlanIsExact(copies: seq<EdgeCopy>, ordered: seq<nat>, emitted: seq<bool>, remaining: seq<nat>)
    requires |emitted| == |copies| && Working(copies, ordered, emitted) && Pending(copies, remaining, emitted)
    requires NoneRuns(copies, ordered, remaining)
    ensures Exact(copies, EdgePlan((set i | i in remaining), ordered))
  {
    var r := set i | i in remaining;
    NothingRunsIsStuck(copies, ordered, emitted, remaining);
    forall i: nat
      ensures i in r <==> OnCycle(copies, i)
      ensures i in ordered <==> i < |copies| && !Skips(copies[i]) && !OnCycle(copies, i)
    {
      hide Stuck;
      if i in r { StuckIsCycle(copies, r, i); }
      if OnCycle(copies, i) {
        CycleNotOrdered(copies, ordered, i);
        CycleNotSkipped(copies, i);
      }
    }
  }

  /** One round: a pass with deferral and, if that starved, one without. */
  method Round(copies: seq<EdgeCopy>, guards: seq<set<nat>>, preds: seq<seq<nat>>, skippable: seq<bool>,
               remaining0: seq<nat>, ordered0: seq<nat>, emitted0: seq<bool>, ghost rd0: seq<nat>, ghost r: nat)
    returns (ordered: seq<nat>, emitted: seq<bool>, remaining: seq<nat>, progressed: bool, ghost rd: seq<nat>)
    requires Tables(copies, preds, skippable) && |guards| == |copies| == |emitted0| == |rd0|
    requires Working(copies, ordered0, emitted0) && Pending(copies, remaining0, emitted0)
    ensures |emitted| == |copies| == |rd| && Working(copies, ordered, emitted) && Pending(copies, remaining, emitted)
    ensures if progressed then |remaining| < |remaining0| else NoneRuns(copies, ordered, remaining)
    ensures Calm(copies, guards) && Scanning(copies, guards, ordered0, rd0, r, [], remaining0) ==>
              Scanning(copies, guards, ordered, rd, r + 1, [], remaining)
  {
    hide Working, Pending, Tables, Unemitted, Scanning, Calm, Held, NoneRuns;
    var blocked;
    ordered, emitted, blocked, progressed, rd := FirstScan(copies, guards, preds, skippable, remaining0, ordered0, emitted0, rd0, r);
    if Scanning(copies, guards, ordered, rd, r, blocked, []) { NextRound(copies, guards, ordered, rd, r, blocked); }
    PendingUnemitted(copies, blocked, emitted);
    if !progressed {
      if Calm(copies, guards) { NeverStarves(copies, guards, blocked, ordered, emitted); }
      ghost var left;
      ordered, emitted, left, progressed := SecondScan(copies, preds, skippable, blocked, ordered, emitted);
      if !progressed { PendingUnemitted(copies, blocked, emitted); }
    }
    remaining := Unemitted(blocked, emitted);
  }

  ghost predicate NoneRuns(copies: seq<EdgeCopy>, ordered: seq<nat>, remaining: seq<nat>) {
    forall k :: 0 <= k < |remaining| ==> !CanRun(copies, ordered, remaining[k])
  }

  /** `plan_edge_copies_acyclic_guards`, for any guards. */
  method PlanAcyclic(copies: seq<EdgeCopy>, guards: seq<set<nat>>) returns (plan: EdgePlan)
    requires |guards| == |copies|
    ensures forall i: nat :: i in plan.ordered <==> i < |copies| && copies[i].src != Some(copies[i].dest) && i !in plan.cyclic
    ensures Exact(copies, plan)
    ensures Calm(copies, guards) ==> InRounds(copies, guards, plan.ordered) && Meets(copies, guards, plan.ordered)
  {
    hide Working, Pending, Tables, NoneRuns, Exact, Unemitted, Calm, Scanning, InRounds, Meets;
    var preds, skippable := BuildPreds(copies);
    TablesLength(copies, preds, skippable);
    var ordered: seq<nat>, emitted := [], seq(|copies|, _ => false);
    var remaining := Unemitted(seq(|copies|, i => i), skippable);
    InitialPending(copies, preds, skippable);
    ghost var rd: seq<nat>, r := seq(|copies|, _ => 0), 0;
    PendingAscending(copies, remaining, emitted);
    ScanStart(copies, guards, rd, remaining);
    var progressed := true;
    while progressed
      invariant |emitted| == |copies| == |rd| && Working(copies, ordered, emitted) && Pending(copies, remaining, emitted)
      invariant progressed || NoneRuns(copies, ordered, remaining)
      invariant Calm(copies, guards) ==> Scanning(copies, guards, ordered, rd, r, [], remaining)
      decreases progressed, |remaining|
    {
      ordered, emitted, remaining, progressed, rd := Round(copies, guards, preds, skippable, remaining, ordered, emitted, rd, r);
      r := r + 1;
    }
    PlanIsExact(copies, ordered, emitted, remaining);
    if Calm(copies, guards) { ScanEnds(copies, guards, ordered, rd, r, remaining); }
    plan := EdgePlan((set i | i in remaining), ordered);
    ExactOrders(copies, plan);
  }

  /** What is ordered, without the vocabulary of the plan: everything but self-copies and what a temporary serves. */
  lemma ExactOrders(copies: seq<EdgeCopy>, plan: EdgePlan)
    requires Exact(copies, plan)
    ensures forall i: nat :: i in plan.ordered <==> i < |copies| && copies[i].src != Some(copies[i].dest) && i !in plan.cyclic
  {
    hide OnCycle, Sound;
  }

  lemma ScanEnds(copies: seq<EdgeCopy>, guards: seq<set<nat>>, ordered: seq<nat>, rd: seq<nat>, r: nat, remaining: seq<nat>)
    requires Scanning(copies, guards, ordered, rd, r, [], remaining)
    ensures |guards| == |copies| && InRounds(copies, guards, ordered) && Meets(copies, guards, ordered)
  {
    TimedInRounds(copies, guards, ordered, rd);
    TimedMeets(copies, guards, ordered, rd);
  }

  lemma PendingAscending(copies: seq<EdgeCopy>, remaining: seq<nat>, emitted: seq<bool>)
    requires |emitted| == |copies| && Pending(copies, remaining, emitted)
    ensures Ascending(remaining)
  {
  }

  lemma TablesLength(copies: seq<EdgeCopy>, preds: seq<seq<nat>>, skippable: seq<bool>)
    requires Tables(copies, preds, skippable)
    ensures |skippable| == |copies|
  {
  }

  lemma PendingUnemitted(copies: seq<EdgeCopy>, blocked: seq<nat>, emitted: seq<bool>)
    requires |emitted| == |copies| && Pending(copies, blocked, emitted)
    ensures forall k :: 0 <= k < |blocked| ==> blocked[k] < |emitted|
    ensures Unemitted(blocked, emitted) == blocked
  {
    forall k | 0 <= k < |blocked|
      ensures !emitted[blocked[k]]
    {
      assert blocked[k] in blocked;
    }
    UnemittedAll(blocked, emitted);
  }

  lemma {:induction false} UnemittedAscending(blocked: seq<nat>, emitted: seq<bool>)
    requires Ascending(blocked) && forall k :: 0 <= k < |blocked| ==> blocked[k] < |emitted|
    ensures Ascending(Unemitted(blocked, emitted))
  {
    if blocked != [] {
      var n := |blocked| - 1;
      UnemittedAscending(blocked[..n], emitted);
      var front := Unemitted(blocked[..n], emitted);
      forall k | 0 <= k < |front|
        ensures front[k] < blocked[n]
      {
        UnemittedMember(blocked[..n], emitted, front[k]);
      }
    }
  }

  lemma InitialPending(copies: seq<EdgeCopy>, preds: seq<seq<nat>>, skippable: seq<bool>)
    requires Tables(copies, preds, skippable)
    ensures Pending(copies, Unemitted(seq(|copies|, i => i), skippable), seq(|copies|, _ => false))
    ensures Working(copies, [], seq(|copies|, _ => false))
  {
    var all: seq<nat> := seq(|copies|, i => i);
    var pending := Unemitted(all, skippable);
    assert forall i: nat :: i < |copies| ==> all[i] == i;
    UnemittedAscending(all, skippable);
    hide Unemitted;
    forall i: nat
      ensures i in pending <==> i < |copies| && !Skips(copies[i])
    {
      UnemittedMember(all, skippable, i);
      if i < |copies| { assert all[i] in all; }
    }
    assert forall k :: 0 <= k < |pending| ==> pending[k] in pending;
  }

  // ---- the historical planner ----

  /** Reads, and does not merely keep, a destination of the block. */
  predicate ReadsDest(copies: seq<EdgeCopy>, i: nat)
    requires i < |copies|
  {
    copies[i].src.Some? && !Skips(copies[i]) && exists k :: 0 <= k < |copies| && copies[k].dest == copies[i].src.value
  }

  /** Marked: reads a destination, or has a destination that a marked copy of the first kind reads. */
  predicate Marked(copies: seq<EdgeCopy>, i: nat)
    requires i < |copies|
  {
    ReadsDest(copies, i) || exists k :: 0 <= k < |copies| && ReadsDest(copies, k) && copies[k].src == Some(copies[i].dest)
  }

  method LegacyReaders(copies: seq<EdgeCopy>) returns (needs: set<nat>)
    ensures forall k: nat :: k in needs <==> k < |copies| && ReadsDest(copies, k)
  {
    var dests := set k | 0 <= k < |copies| :: copies[k].dest;
    needs := {};
    for i := 0 to |copies|
      invariant forall k: nat :: k in needs <==> k < i && ReadsDest(copies, k)
    {
      var src := copies[i].src;
      if src.Some? && src.value != copies[i].dest && src.value in dests {
        needs := needs + {i};
      }
    }
  }

  method LegacyClose(copies: seq<EdgeCopy>, readers: set<nat>) returns (needs: set<nat>)
    requires forall k: nat :: k in readers <==> k < |copies| && ReadsDest(copies, k)
    ensures forall k: nat :: k in needs <==> k < |copies| && Marked(copies, k)
  {
    needs := readers;
    var conflicting := set k: nat | k in readers :: copies[k].src.value;
    for j := 0 to |copies|
      invariant forall k: nat :: k in needs <==> k in readers || (k < j && copies[k].dest in conflicting)
    {
      if copies[j].dest in conflicting {
        needs := needs + {j};
      }
    }
    forall i: nat | i < |copies|
      ensures copies[i].dest in conflicting <==> exists k :: 0 <= k < |copies| && ReadsDest(copies, k) && copies[k].src == Some(copies[i].dest)
    {
      if copies[i].dest in conflicting {
        var k: nat :| k in readers && copies[k].src.value == copies[i].dest;
        assert ReadsDest(copies, k);
      }
      if k :| 0 <= k < |copies| && ReadsDest(copies, k) && copies[k].src == Some(copies[i].dest) {
        assert k in readers;
      }
    }
  }

  /** `plan_edge_copies_legacy`. */
  method PlanLegacy(copies: seq<EdgeCopy>) returns (plan: EdgePlan)
    ensures LegacyPlan(copies, plan)
  {
    var readers := LegacyReaders(copies);
    var needs := LegacyClose(copies, readers);
    hide Marked;
    var ordered: seq<nat> := [];
    for i := 0 to |copies|
      invariant Distinct(ordered)
      invariant forall k: nat :: k in ordered <==> k < i && k !in needs
    {
      if i !in needs {
        ordered := ordered + [i];
      }
    }
    plan := EdgePlan(needs, ordered);
  }

  /** The marked copies get temporaries; the rest keep the order of the block. */
  ghost predicate LegacyPlan(copies: seq<EdgeCopy>, plan: EdgePlan) {
    && (forall i: nat :: i in plan.cyclic <==> i < |copies| && Marked(copies, i))
    && Distinct(plan.ordered)
    && (forall i: nat :: i in plan.ordered <==> i < |copies| && !Marked(copies, i))
  }

  // ---- what the emitter needs of a plan ----

  predicate DistinctDests(copies: seq<EdgeCopy>) {
    forall i, j :: 0 <= i < j < |copies| ==> copies[i].dest != copies[j].dest
  }

  /** Run in this order, no copy finds its source already overwritten; `temp` holds the copies served separately. */
  ghost predicate Serial(copies: seq<EdgeCopy>, temp: set<nat>, ordered: seq<nat>) {
    && Distinct(ordered)
    && (forall a :: 0 <= a < |ordered| ==> ordered[a] < |copies|)
    && (forall i: nat :: i < |copies| && i !in temp && !Skips(copies[i]) ==> i in ordered)
    && (forall a, b :: 0 <= a < b < |ordered| && ordered[a] !in temp && ordered[b] !in temp && !Skips(copies[ordered[b]]) ==>
          copies[ordered[b]].src != Some(copies[ordered[a]].dest))
  }

  lemma WriterUnique(copies: seq<EdgeCopy>, j: nat)
    requires DistinctDests(copies) && j < |copies|
    ensures WriterOf(copies, copies[j].dest) == Some(j)
  {
    assert WriterOf(copies, copies[j].dest).Some?;
  }

  lemma ExactIsSerial(copies: seq<EdgeCopy>, plan: EdgePlan, temp: set<nat>)
    requires DistinctDests(copies) && Exact(copies, plan) && plan.cyclic <= temp
    ensures Serial(copies, temp, plan.ordered)
  {
    var ordered := plan.ordered;
    forall i: nat | i < |copies| && i !in temp && !Skips(copies[i])
      ensures i in ordered
    {
      assert i !in plan.cyclic;
    }
    forall a, b | 0 <= a < b < |ordered|
      ensures copies[ordered[b]].src != Some(copies[ordered[a]].dest)
    {
      LaterNotBefore(copies, ordered, a, b);
      WriterUnique(copies, ordered[a]);
    }
  }

  lemma LaterNotBefore(copies: seq<EdgeCopy>, ordered: seq<nat>, a: nat, b: nat)
    requires Sound(copies, ordered) && a < b < |ordered|
    ensures !Before(copies, ordered[b], ordered[a])
  {
    assert forall c :: 0 <= c < a ==> ordered[..a][c] == ordered[c] && ordered[c] != ordered[b];
    assert ordered[b] !in ordered[..a];
  }

  lemma LegacyIsSerial(copies: seq<EdgeCopy>, plan: EdgePlan, temp: set<nat>)
    requires LegacyPlan(copies, plan) && plan.cyclic <= temp
    ensures Serial(copies, temp, plan.ordered)
  {
    var ordered := plan.ordered;
    assert forall a :: 0 <= a < |ordered| ==> ordered[a] in ordered;
    forall a, b | 0 <= a < b < |ordered| && ordered[a] !in temp && ordered[b] !in temp && !Skips(copies[ordered[b]])
      ensures copies[ordered[b]].src != Some(copies[ordered[a]].dest)
    {
      assert !ReadsDest(copies, ordered[b]);
    }
  }

  /** The historical planner never spends fewer temporaries than the cycle-accurate one. */
  lemma LegacyMarksCycles(copies: seq<EdgeCopy>, i: nat)
    requires OnCycle(copies, i)
    ensures Marked(copies, i)
  {
    var k: nat :| k > 0 && Follow(copies, i, k) == Some(i);
    assert NextOf(copies, i).Some?;
    assert ReadsDest(copies, i);
  }
}
