/**
 Sinking computed phi incomings, `fold_computed_phi_incomings` of
 src/ir/mem2reg/phi_eliminate.rs: a pure definition moves down to the copy that consumes it when a
 scan of the instructions in between finds no hazard.
 */
module PhiSink {
  import opened Options
  import opened WordIr
  import opened PhiGraph
  import opened PhiCopies

  function OperandIds(o: Operand): set<nat> {
    match o case Val(id) => {id} case Imm(_) => {}
  }

  /** The values an instruction reads. */
  function Reads(i: Inst): set<nat> {
    match i
    case BinOp(_, _, lhs, rhs, _) => OperandIds(lhs) + OperandIds(rhs)
    case Cast(_, src, _, _) => OperandIds(src)
    case Copy(_, src) => OperandIds(src)
    case Cmp(_, _, lhs, rhs, _) => OperandIds(lhs) + OperandIds(rhs)
    case Select(_, cond, yes, no) => OperandIds(cond) + OperandIds(yes) + OperandIds(no)
  }

  predicate IsPureSinking(op: Op) {
    op != UMulHigh && op != SMulHigh
  }

  /** `inst` neither reads nor writes what `def` writes, nor writes what it reads. */
  predicate Independent(def: Inst, inst: Inst) {
    inst.dest != def.dest && inst.dest !in Reads(def) && def.dest !in Reads(inst)
  }

  lemma OperandSame(o: Operand, env: Env, id: nat, v: int)
    requires id !in OperandIds(o)
    ensures Eval(env[id := v], o) == Eval(env, o)
  {
  }

  lemma ValueSame(i: Inst, env: Env, id: nat, v: int)
    requires id !in Reads(i)
    ensures Value(i, env[id := v]) == Value(i, env)
  {
    hide Apply, Eval, Unsigned, Signed;
    match i
    case BinOp(_, _, lhs, rhs, _) => OperandSame(lhs, env, id, v); OperandSame(rhs, env, id, v);
    case Cast(_, src, _, _) => OperandSame(src, env, id, v);
    case Copy(_, src) => OperandSame(src, env, id, v);
    case Cmp(_, _, lhs, rhs, _) => OperandSame(lhs, env, id, v); OperandSame(rhs, env, id, v);
    case Select(_, cond, yes, no) => OperandSame(cond, env, id, v); OperandSame(yes, env, id, v); OperandSame(no, env, id, v);
  }

  lemma Swap(def: Inst, inst: Inst, env: Env)
    requires Independent(def, inst)
    ensures Step(inst, Step(def, env)) == Step(def, Step(inst, env))
  {
    hide Value;
    ValueSame(inst, env, def.dest, Value(def, env));
    ValueSame(def, env, inst.dest, Value(inst, env));
  }

  predicate AllIndependent(def: Inst, window: seq<Inst>) {
    forall k :: 0 <= k < |window| ==> Independent(def, window[k])
  }

  lemma {:induction false} SinkPast(def: Inst, window: seq<Inst>, env: Env)
    requires AllIndependent(def, window)
    ensures Run([def] + window, env) == Step(def, Run(window, env))
  {
    hide Step, Independent;
    if window == [] {
      assert [def] + window == [def];
      RunOne(def, env);
    } else {
      var n := |window| - 1;
      var front, last := window[..n], window[n];
      assert forall k :: 0 <= k < n ==> front[k] == window[k];
      SinkPast(def, front, env);
      assert [def] + window == ([def] + front) + [last] && window == front + [last];
      RunPush([def] + front, last, env);
      RunPush(front, last, env);
      Swap(def, last, Run(front, env));
    }
  }

  /** The block with the definition at `d` moved to just before position `c`. */
  function Sunk(insts: seq<Inst>, d: nat, c: nat): (out: seq<Inst>)
    requires d < c < |insts|
    ensures |out| == |insts| && out[c - 1] == insts[d] && out[c] == insts[c]
    ensures multiset(out) == multiset(insts)
  {
    assert insts == insts[..d] + [insts[d]] + insts[d + 1..c] + insts[c..];
    insts[..d] + insts[d + 1..c] + [insts[d]] + insts[c..]
  }

  /** Moving a definition past independent instructions changes no register in any state. */
  lemma SinkKeepsMeaning(insts: seq<Inst>, d: nat, c: nat, env: Env)
    requires d < c < |insts| && AllIndependent(insts[d], insts[d + 1..c])
    ensures Run(Sunk(insts, d, c), env) == Run(insts, env)
  {
    hide Run, Step;
    var head, def, window, tail := insts[..d], insts[d], insts[d + 1..c], insts[c..];
    var e := Run(head, env);
    SinkPast(def, window, e);
    RunPush(window, def, e);
    assert insts == head + (([def] + window) + tail);
    assert Sunk(insts, d, c) == head + ((window + [def]) + tail);
    RunAppend(head, ([def] + window) + tail, env);
    RunAppend(head, (window + [def]) + tail, env);
    RunAppend([def] + window, tail, e);
    RunAppend(window + [def], tail, e);
  }

  // ---- which instructions the fold looks at ----

  datatype Candidate = Candidate(dest: nat, v: nat)

  predicate IsCopyOf(inst: Inst, c: Candidate) {
    inst == Copy(c.dest, Val(c.v))
  }

  predicate IsDefOf(inst: Inst, v: nat) {
    inst.BinOp? && inst.dest == v && IsPureSinking(inst.op)
  }

  /** A copy of one register to another. */
  predicate IsRelay(inst: Inst) {
    inst.Copy? && inst.src.Val? && inst.src.id != inst.dest
  }

  function CandidatesOf(insts: seq<Inst>): seq<Candidate> {
    if insts == [] then []
    else
      var inst := insts[|insts| - 1];
      CandidatesOf(insts[..|insts| - 1]) + if IsRelay(inst) then [Candidate(inst.dest, inst.src.id)] else []
  }

  method Candidates(insts: seq<Inst>) returns (cs: seq<Candidate>)
    ensures cs == CandidatesOf(insts)
  {
    cs := [];
    for k := 0 to |insts|
      invariant cs == CandidatesOf(insts[..k])
    {
      assert insts[..k + 1][..k] == insts[..k];
      var inst := insts[k];
      if inst.Copy? && inst.src.Val? && inst.src.id != inst.dest {
        cs := cs + [Candidate(inst.dest, inst.src.id)];
      }
    }
    assert insts[..|insts|] == insts;
  }

  /** The first position below `limit` whose instruction satisfies `p`. */
  method FirstPosition(insts: seq<Inst>, limit: nat, p: Inst -> bool) returns (k: Option<nat>)
    requires limit <= |insts|
    ensures k.Some? ==> k.value < limit && p(insts[k.value]) && forall j :: 0 <= j < k.value ==> !p(insts[j])
    ensures k.None? ==> forall j :: 0 <= j < limit ==> !p(insts[j])
  {
    for j := 0 to limit
      invariant forall i :: 0 <= i < j ==> !p(insts[i])
    {
      if p(insts[j]) {
        return Some(j);
      }
    }
    k := None;
  }

  // ---- one candidate ----

  /** `p` is the first copy of the candidate and `d` the first definition above it. */
  ghost predicate Chosen(insts: seq<Inst>, c: Candidate, d: nat, p: nat) {
    && d < p < |insts|
    && IsCopyOf(insts[p], c) && (forall j :: 0 <= j < p ==> !IsCopyOf(insts[j], c))
    && IsDefOf(insts[d], c.v) && (forall j :: 0 <= j < d ==> !IsDefOf(insts[j], c.v))
  }

  /** The hazard scan finds nothing between them. */
  predicate Clear(insts: seq<Inst>, d: nat, p: nat)
    requires d < p < |insts|
  {
    forall k :: d < k < p ==> Independent(insts[d], insts[k])
  }

  /** The phi home is read or written between them, or in a block this one dominates. */
  predicate Pending(insts: seq<Inst>, home: nat, d: nat, p: nat, below: nat -> bool)
    requires d < p < |insts|
  {
    below(home) || exists k :: d < k < p && (insts[k].dest == home || home in Reads(insts[k]))
  }

  ghost predicate Sinkable(insts: seq<Inst>, c: Candidate, d: nat, p: nat, below: nat -> bool) {
    Chosen(insts, c, d, p) && Clear(insts, d, p) && Pending(insts, c.dest, d, p, below)
  }

  lemma ChosenOnce(insts: seq<Inst>, c: Candidate, d: nat, p: nat, d': nat, p': nat)
    requires Chosen(insts, c, d, p) && Chosen(insts, c, d', p')
    ensures d == d' && p == p'
  {
  }

  lemma SinkableKeepsMeaning(insts: seq<Inst>, c: Candidate, d: nat, p: nat, below: nat -> bool, env: Env)
    requires Sinkable(insts, c, d, p, below)
    ensures Run(Sunk(insts, d, p), env) == Run(insts, env)
  {
    hide Independent, IsCopyOf, IsDefOf, Pending;
    var window := insts[d + 1..p];
    assert forall k :: 0 <= k < |window| ==> window[k] == insts[d + 1 + k];
    SinkKeepsMeaning(insts, d, p, env);
  }

  /** The block after one candidate; `below` tells which values dominated blocks touch. */
  ghost function SinkOne(insts: seq<Inst>, c: Candidate, below: nat -> bool): seq<Inst> {
    if exists d: nat, p: nat :: Sinkable(insts, c, d, p, below) then
      var d: nat, p: nat :| Sinkable(insts, c, d, p, below);
      Sunk(insts, d, p)
    else insts
  }

  /** What becomes of the chosen definition: it goes to just before the copy, or nothing moves. */
  lemma SinkOneIs(insts: seq<Inst>, c: Candidate, d: nat, p: nat, below: nat -> bool)
    requires Chosen(insts, c, d, p)
    ensures SinkOne(insts, c, below) ==
              if Clear(insts, d, p) && Pending(insts, c.dest, d, p, below)
              then insts[..d] + insts[d + 1..p] + [insts[d]] + insts[p..] else insts
  {
    hide Clear, Pending, Chosen;
    assert d < p < |insts| by { ChosenInside(insts, c, d, p); }
    forall e: nat, q: nat | Sinkable(insts, c, e, q, below)
      ensures e == d && q == p
    {
      ChosenOnce(insts, c, d, p, e, q);
    }
    assert Sinkable(insts, c, d, p, below) <==> Clear(insts, d, p) && Pending(insts, c.dest, d, p, below);
  }

  lemma ChosenInside(insts: seq<Inst>, c: Candidate, d: nat, p: nat)
    requires Chosen(insts, c, d, p)
    ensures d < p < |insts|
  {
  }

  lemma SinkNothing(insts: seq<Inst>, c: Candidate, below: nat -> bool)
    requires forall d: nat, p: nat :: !Chosen(insts, c, d, p)
    ensures SinkOne(insts, c, below) == insts
  {
  }

  method SinkCandidate(insts: seq<Inst>, c: Candidate, below: nat -> bool) returns (out: seq<Inst>)
    ensures out == SinkOne(insts, c, below)
  {
    hide Independent, Reads, SinkOne;
    out := insts;
    var copyPos := FirstPosition(insts, |insts|, (i: Inst) => IsCopyOf(i, c));
    if copyPos.None? {
      assert forall d: nat, p: nat :: !Chosen(insts, c, d, p);
      SinkNothing(insts, c, below);
      return;
    }
    var defPos := FirstPosition(insts, copyPos.value, (i: Inst) => IsDefOf(i, c.v));
    if defPos.None? {
      assert forall d: nat, p: nat :: !Chosen(insts, c, d, p);
      SinkNothing(insts, c, below);
      return;
    }
    var d, p := defPos.value, copyPos.value;
    SinkOneIs(insts, c, d, p, below);
    var pending := exists k :: d < k < p && (insts[k].dest == c.dest || c.dest in Reads(insts[k]));
    if !pending && !below(c.dest) {
      return;
    }
    if exists k :: d < k < p && !Independent(insts[d], insts[k]) {
      return;
    }
    out := insts[..d] + insts[d + 1..p] + [insts[d]] + insts[p..];
  }

  lemma SinkOneKeepsMeaning(insts: seq<Inst>, c: Candidate, below: nat -> bool, env: Env)
    ensures Run(SinkOne(insts, c, below), env) == Run(insts, env)
    ensures multiset(SinkOne(insts, c, below)) == multiset(insts)
  {
    hide Run, Chosen, Clear, Pending;
    if d0: nat, p0: nat :| Sinkable(insts, c, d0, p0, below) {
      ChosenInside(insts, c, d0, p0);
      SinkOneIs(insts, c, d0, p0, below);
      assert SinkOne(insts, c, below) == Sunk(insts, d0, p0);
      SinkableKeepsMeaning(insts, c, d0, p0, below, env);
    }
  }

  // ---- all candidates of a block ----

  /** The last candidate first. */
  ghost function FoldDown(insts: seq<Inst>, cs: seq<Candidate>, below: nat -> bool): seq<Inst>
    decreases |cs|
  {
    if cs == [] then insts
    else FoldDown(SinkOne(insts, cs[|cs| - 1], below), cs[..|cs| - 1], below)
  }

  /** Whatever dominated blocks touch, the fold permutes the block and changes no register in any state. */
  lemma {:induction false} FoldKeepsMeaning(insts: seq<Inst>, cs: seq<Candidate>, below: nat -> bool, env: Env)
    ensures Run(FoldDown(insts, cs, below), env) == Run(insts, env)
    ensures multiset(FoldDown(insts, cs, below)) == multiset(insts)
    decreases |cs|
  {
    hide Run, SinkOne;
    if cs != [] {
      var c := cs[|cs| - 1];
      SinkOneKeepsMeaning(insts, c, below, env);
      FoldKeepsMeaning(SinkOne(insts, c, below), cs[..|cs| - 1], below, env);
    }
  }

  /** No relay after position `n`. */
  predicate NoRelayFrom(insts: seq<Inst>, n: nat) {
    forall j :: n <= j < |insts| ==> !IsRelay(insts[j])
  }

  /** The last relay of the block is the last candidate, and the ones before it are the others. */
  lemma {:induction false} LastCandidate(insts: seq<Inst>, p: nat)
    requires p < |insts| && IsRelay(insts[p]) && NoRelayFrom(insts, p + 1)
    ensures CandidatesOf(insts) == CandidatesOf(insts[..p]) + [Candidate(insts[p].dest, insts[p].src.id)]
    decreases |insts|
  {
    if p < |insts| - 1 {
      var front := insts[..|insts| - 1];
      assert front[..p] == insts[..p] && forall j :: 0 <= j < |front| ==> front[j] == insts[j];
      LastCandidate(front, p);
    }
  }

  lemma {:induction false} NoCandidates(insts: seq<Inst>)
    requires NoRelayFrom(insts, 0)
    ensures CandidatesOf(insts) == []
  {
    if insts != [] {
      var front := insts[..|insts| - 1];
      assert forall j :: 0 <= j < |front| ==> front[j] == insts[j];
      NoCandidates(front);
    }
  }

  /** The last relay is dealt with first, and then the ones above it in the block that results. */
  lemma LastRelayFirst(insts: seq<Inst>, p: nat, below: nat -> bool)
    requires p < |insts| && IsRelay(insts[p]) && NoRelayFrom(insts, p + 1)
    ensures FoldDown(insts, CandidatesOf(insts), below) ==
            FoldDown(SinkOne(insts, Candidate(insts[p].dest, insts[p].src.id), below), CandidatesOf(insts[..p]), below)
  {
    hide SinkOne;
    LastCandidate(insts, p);
    var c, cs := Candidate(insts[p].dest, insts[p].src.id), CandidatesOf(insts[..p]);
    assert (cs + [c])[..|cs|] == cs;
  }

  /** `p` is the only relay of the block. */
  predicate LoneRelay(insts: seq<Inst>, p: nat) {
    p < |insts| && IsRelay(insts[p]) && forall j :: 0 <= j < |insts| && j != p ==> !IsRelay(insts[j])
  }

  /** `d` is the first pure computation above the relay `p` that defines its source. */
  predicate FirstDefinition(insts: seq<Inst>, d: nat, p: nat)
    requires p < |insts| && IsRelay(insts[p])
  {
    d < p && IsDefOf(insts[d], insts[p].src.id) && forall j :: 0 <= j < d ==> !IsDefOf(insts[j], insts[p].src.id)
  }

  lemma LoneChosen(insts: seq<Inst>, p: nat, d: nat, q: nat)
    requires LoneRelay(insts, p)
    ensures Chosen(insts, Candidate(insts[p].dest, insts[p].src.id), d, q) <==> q == p && FirstDefinition(insts, d, p)
  {
    var c := Candidate(insts[p].dest, insts[p].src.id);
    assert forall j :: 0 <= j < |insts| && IsCopyOf(insts[j], c) ==> IsRelay(insts[j]);
  }

  /** A block with one relay: its definition ends up just before it, exactly when nothing is in the way and the home is pending. */
  lemma FoldLone(insts: seq<Inst>, p: nat, below: nat -> bool)
    requires LoneRelay(insts, p)
    ensures forall d: nat :: FirstDefinition(insts, d, p) ==>
              FoldDown(insts, CandidatesOf(insts), below) ==
              if Clear(insts, d, p) && Pending(insts, insts[p].dest, d, p, below)
              then insts[..d] + insts[d + 1..p] + [insts[d]] + insts[p..] else insts
    ensures (forall d: nat :: !FirstDefinition(insts, d, p)) ==> FoldDown(insts, CandidatesOf(insts), below) == insts
  {
    hide SinkOne, Clear, Pending, Chosen, FirstDefinition;
    var c := Candidate(insts[p].dest, insts[p].src.id);
    LastRelayFirst(insts, p, below);
    assert forall j :: 0 <= j < p ==> insts[..p][j] == insts[j];
    NoCandidates(insts[..p]);
    forall d: nat, q: nat
      ensures Chosen(insts, c, d, q) <==> q == p && FirstDefinition(insts, d, p)
    {
      LoneChosen(insts, p, d, q);
    }
    forall d: nat | FirstDefinition(insts, d, p)
      ensures d < p && SinkOne(insts, c, below) ==
                if Clear(insts, d, p) && Pending(insts, insts[p].dest, d, p, below)
                then insts[..d] + insts[d + 1..p] + [insts[d]] + insts[p..] else insts
    {
      ChosenInside(insts, c, d, p);
      SinkOneIs(insts, c, d, p, below);
    }
    if forall d: nat :: !FirstDefinition(insts, d, p) {
      SinkNothing(insts, c, below);
    }
  }

  /** What one instruction names: its destination and operands, spelled out. */
  lemma TouchesExactly(def: Inst, inst: Inst, id: nat)
    ensures id in Reads(inst) <==>
              match inst
              case BinOp(_, _, a, b, _) => a == Val(id) || b == Val(id)
              case Cast(_, a, _, _) => a == Val(id)
              case Copy(_, a) => a == Val(id)
              case Cmp(_, _, a, b, _) => a == Val(id) || b == Val(id)
              case Select(_, a, b, c) => a == Val(id) || b == Val(id) || c == Val(id)
    ensures Independent(def, inst) <==> inst.dest != def.dest && def.dest !in Reads(inst) && inst.dest !in Reads(def)
  {
  }

  /** A pure definition, one other instruction, and the relay: when the first two change places. */
  lemma SinksPastOne(insts: seq<Inst>, below: nat -> bool)
    requires |insts| == 3 && insts[0].BinOp? && insts[0].op in {Add, Sub, Mul, BitAnd, BitOr, BitXor, Shl, AShr, LShr}
    requires insts[2].Copy? && insts[2].src == Val(insts[0].dest) && insts[2].dest != insts[0].dest
    requires !(insts[1].Copy? && insts[1].src.Val? && insts[1].src.id != insts[1].dest)
    ensures var def, mid, home := insts[0], insts[1], insts[2].dest;
            FoldDown(insts, CandidatesOf(insts), below) ==
              if mid.dest != def.dest && mid.dest !in Reads(def) && def.dest !in Reads(mid) &&
                 (below(home) || mid.dest == home || home in Reads(mid))
              then [insts[1], insts[0], insts[2]] else insts
  {
    RelayFacts(insts, below);
    SwapFirst(insts);
    hide FoldDown, CandidatesOf, LoneRelay, FirstDefinition, Clear, Pending;
    FoldLone(insts, 2, below);
  }

  lemma SwapFirst(insts: seq<Inst>)
    requires |insts| == 3
    ensures insts[..0] + insts[0 + 1..2] + [insts[0]] + insts[2..] == [insts[1], insts[0], insts[2]]
  {
  }

  lemma RelayFacts(insts: seq<Inst>, below: nat -> bool)
    requires |insts| == 3 && IsDefOf(insts[0], insts[0].dest) && !IsRelay(insts[1]) && IsRelay(insts[2]) && insts[2].src.id == insts[0].dest
    ensures LoneRelay(insts, 2) && FirstDefinition(insts, 0, 2)
    ensures Clear(insts, 0, 2) <==> Independent(insts[0], insts[1])
    ensures var home := insts[2].dest; Pending(insts, home, 0, 2, below) <==> below(home) || insts[1].dest == home || home in Reads(insts[1])
  {
    hide Reads, Independent;
  }

  /** `fold_computed_phi_incomings` on one block, bottom-up over the candidates found at the start. */
  method FoldBlock(insts: seq<Inst>, below: nat -> bool) returns (out: seq<Inst>)
    ensures out == FoldDown(insts, CandidatesOf(insts), below)
    ensures forall env: Env :: Run(out, env) == Run(insts, env)
    ensures multiset(out) == multiset(insts)
    ensures forall p: nat, d: nat :: LoneRelay(insts, p) && FirstDefinition(insts, d, p) ==>
              out == if Clear(insts, d, p) && Pending(insts, insts[p].dest, d, p, below)
                     then insts[..d] + insts[d + 1..p] + [insts[d]] + insts[p..] else insts
    ensures forall p: nat :: LoneRelay(insts, p) && (forall d: nat :: !FirstDefinition(insts, d, p)) ==> out == insts
    ensures NoRelayFrom(insts, 0) ==> out == insts
  {
    hide Run, SinkOne, LoneRelay, FirstDefinition, Clear, Pending, NoRelayFrom;
    var cs := Candidates(insts);
    out := insts;
    var k := |cs|;
    assert cs[..k] == cs;
    while k > 0
      invariant 0 <= k <= |cs|
      invariant FoldDown(out, cs[..k], below) == FoldDown(insts, cs, below)
    {
      k := k - 1;
      assert cs[..k + 1][..k] == cs[..k];
      out := SinkCandidate(out, cs[k], below);
    }
    assert cs[..0] == [];
    forall env: Env
      ensures Run(out, env) == Run(insts, env) && multiset(out) == multiset(insts)
    {
      FoldKeepsMeaning(insts, cs, below, env);
    }
    FoldKeepsMeaning(insts, cs, below, map[]);
    LoneBlocks(insts, below);
  }

  lemma NoRelayStays(insts: seq<Inst>, below: nat -> bool)
    ensures NoRelayFrom(insts, 0) ==> FoldDown(insts, CandidatesOf(insts), below) == insts
  {
    if NoRelayFrom(insts, 0) { NoCandidates(insts); }
  }

  lemma LoneBlocks(insts: seq<Inst>, below: nat -> bool)
    ensures var out := FoldDown(insts, CandidatesOf(insts), below);
            && (forall p: nat, d: nat :: LoneRelay(insts, p) && FirstDefinition(insts, d, p) ==>
                  out == if Clear(insts, d, p) && Pending(insts, insts[p].dest, d, p, below)
                         then insts[..d] + insts[d + 1..p] + [insts[d]] + insts[p..] else insts)
            && (forall p: nat :: LoneRelay(insts, p) && (forall d: nat :: !FirstDefinition(insts, d, p)) ==> out == insts)
            && (NoRelayFrom(insts, 0) ==> out == insts)
  {
    hide SinkOne, Clear, Pending, FoldDown, CandidatesOf;
    forall p: nat | LoneRelay(insts, p)
      ensures forall d: nat :: FirstDefinition(insts, d, p) ==>
                FoldDown(insts, CandidatesOf(insts), below) ==
                if Clear(insts, d, p) && Pending(insts, insts[p].dest, d, p, below)
                then insts[..d] + insts[d + 1..p] + [insts[d]] + insts[p..] else insts
      ensures (forall d: nat :: !FirstDefinition(insts, d, p)) ==> FoldDown(insts, CandidatesOf(insts), below) == insts
    {
      FoldLone(insts, p, below);
    }
    NoRelayStays(insts, below);
  }

  // ---- why the planner's guards let the definition through ----

  /** No copy emitted before that of phi `order[b]` overwrites an operand of its computation. */
  lemma OperandsIntact(phis: seq<Phi>, pred: nat, guards: seq<set<nat>>, order: seq<nat>, a: nat, b: nat)
    requires |guards| == |phis| && a < b < |order| && Distinct(order) && (forall k :: 0 <= k < |order| ==> order[k] < |phis|)
    requires Meets(EdgeInfo(phis, pred), guards, order) && !Skips(InfoOf(phis[order[b]], pred))
    ensures phis[order[a]].dest !in guards[order[b]]
  {
    var info := EdgeInfo(phis, pred);
    var i, k := order[a], order[b];
    assert k !in order[..a] by {
      assert forall j :: 0 <= j < a ==> order[..a][j] == order[j] && order[j] != order[b];
    }
    assert !Dep(info, guards, k, order[a]);
    assert order[a] != order[b];
  }

  /** What the window between a definition and its copy may hold: the edge's saves and earlier copies. */
  lemma {:induction false} CopiesAre(phis: seq<Phi>, temps: seq<Option<nat>>, pred: nat, order: seq<nat>, inst: Inst)
    requires |phis| == |temps| && (forall a :: 0 <= a < |order| ==> order[a] < |phis|) && inst in Pass2(phis, temps, pred, order)
    ensures exists a :: 0 <= a < |order| && Emits(phis, temps, pred, order[a]) && inst == Copy(phis[order[a]].dest, phis[order[a]].incoming[pred])
  {
    var n := |order| - 1;
    var front := order[..n];
    if inst in Pass2(phis, temps, pred, front) {
      CopiesAre(phis, temps, pred, front, inst);
      var a :| 0 <= a < |front| && Emits(phis, temps, pred, front[a]) && inst == Copy(phis[front[a]].dest, phis[front[a]].incoming[pred]);
      assert order[a] == front[a];
    } else {
      assert order[n] == order[|order| - 1];
    }
  }

  lemma {:induction false} SavesAre(phis: seq<Phi>, temps: seq<Option<nat>>, pred: nat, n: nat, inst: Inst)
    requires n <= |phis| == |temps| && inst in Pass1(phis, temps, pred, n)
    ensures exists i :: 0 <= i < n && temps[i].Some? && pred in phis[i].incoming && inst == Copy(temps[i].value, phis[i].incoming[pred])
  {
    if inst in Pass1(phis, temps, pred, n - 1) {
      SavesAre(phis, temps, pred, n - 1, inst);
    } else {
      assert temps[n - 1].Some? && pred in phis[n - 1].incoming;
    }
  }

  /** The computation `def` belongs to phi `k` alone on this edge, and the guards of `k` are its operands. */
  ghost predicate ComputedFor(phis: seq<Phi>, temps: seq<Option<nat>>, pred: nat, guards: seq<set<nat>>, next: nat, k: nat, def: Inst) {
    && k < |phis| == |temps| == |guards|
    && Emits(phis, temps, pred, k) && phis[k].incoming[pred] == Val(def.dest)
    && guards[k] == Reads(def) && (forall id :: id in Reads(def) ==> id < next) && def.dest < next
    && (forall i :: 0 <= i < |phis| ==> phis[i].dest != def.dest)
    && (forall i :: 0 <= i < |phis| && i != k && pred in phis[i].incoming ==> phis[i].incoming[pred] != Val(def.dest))
  }

  /** With a plan that meets its guards the scan over the edge's copies finds no hazard before the copy of `k`. */
  lemma SlotIsReachable(phis: seq<Phi>, temps: seq<Option<nat>>, pred: nat, guards: seq<set<nat>>, next: nat, order: seq<nat>, b: nat, def: Inst)
    requires b < |order| && ComputedFor(phis, temps, pred, guards, next, order[b], def) && Temps(temps, next)
    requires Distinct(order) && (forall k :: 0 <= k < |order| ==> order[k] < |phis|) && Meets(EdgeInfo(phis, pred), guards, order)
    ensures AllIndependent(def, Pass1(phis, temps, pred, |phis|) + Pass2(phis, temps, pred, order[..b]))
  {
    var saves, moves := Pass1(phis, temps, pred, |phis|), Pass2(phis, temps, pred, order[..b]);
    forall inst | inst in saves
      ensures Independent(def, inst)
    {
      SavesAre(phis, temps, pred, |phis|, inst);
    }
    forall inst | inst in moves
      ensures Independent(def, inst)
    {
      CopiesAre(phis, temps, pred, order[..b], inst);
      var a :| 0 <= a < |order[..b]| && Emits(phis, temps, pred, order[..b][a]) &&
               inst == Copy(phis[order[..b][a]].dest, phis[order[..b][a]].incoming[pred]);
      assert order[..b][a] == order[a] && order[a] != order[b];
      OperandsIntact(phis, pred, guards, order, a, b);
    }
    var all := saves + moves;
    forall k | 0 <= k < |all|
      ensures Independent(def, all[k])
    {
      assert if k < |saves| then all[k] in saves else all[k] in moves;
    }
  }
}
